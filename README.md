# Library ledger

A Dafny model of the borrowing and availability ledger of a small Flask
library application. The application keeps users, books, borrowings,
wishlist entries and reviews in a relational store. A book's available
copies are its quantity less its open borrowings, where a borrowing is
open while it has no return date. Users borrow and return books, keep a
wishlist, and rate books from 1 to 5. Administrators add books.

The model has four modules:

- `Seqs` holds the generic row-store queries: filtering, lookup by key,
  uniqueness of a column, and the id a new row receives.
- `FormFields` holds Python's `str.strip()` and base-10 `int()`, which the
  handlers apply to form fields.
- `Models` holds the rows (`User`, `Book`, `Borrowing`, `WishlistEntry`,
  `Review`) and the values derived from them (models.py).
- `Library` is the store. It is a class with one sequence of rows per
  table and a method per request handler (app.py). Each method returns an
  `Outcome` in place of a flash message and a redirect.

`Library.Library.Valid()` is the invariant every handler keeps:

- the unique columns: user id, username and email; book id and ISBN; and
  the (user, book) pairs of wishlist entries and of reviews;
- every borrowing, entry and review names an existing user and book;
- every loan is due fourteen days after it was taken out;
- every rating lies in 1..5;
- the capacity rule: no book has more open borrowings than
  `max(0, quantity)`.

The capacity rule uses `max(0, quantity)` and not `quantity` because the
add-book handler converts the quantity with `int()` and applies no range
check (app.py:317). A book can therefore be stored with a negative
quantity. Such a book shows a negative available count (models.py:61) even
when no loan names it, as `Models.NegativeQuantityShowsNegative` states. The
available count is never negative only for books whose quantity is not
negative (`Library.AvailableNeverNegative`).

These facts are parameters of the model:

- the logged-in user's id;
- the current instant, as an integer count of microseconds;
- the password hash, passed as an opaque `credential` string;
- the stored path of an uploaded cover.

Every outcome other than `Ok` leaves the store unchanged.

## Model

| member | source | states |
|---|---|---|
| Models.AvailableCount | models.py:58-61 | the available count never exceeds the book's quantity |
| Models.AvailableCountIsRowCount | models.py:58-61 | the available count is the quantity less the number of ledger rows for the book with no return date |
| Models.AllCopiesIffNoOpenLoan | models.py:58-61 | every copy is on the shelf exactly when none of the book's borrowings is open |
| Models.NegativeQuantityShowsNegative | models.py:58-61 | a book with a negative quantity shows a negative available count for every ledger, and exactly its quantity when there are no loans |
| Models.IsAvailable | models.py:63-65 | a book is available while its available count is positive; `IsAvailableIffCopyLeft` states this as a count of open rows |
| Models.IsAvailableIffCopyLeft | models.py:63-65 | a book is available exactly when it has fewer open ledger rows than copies |
| Models.BorrowedCount | models.py:22-24 | a user's borrowed count is the number of ledger rows for that user with no return date |
| Models.OpenCountIsRowCount | models.py:60 | the open borrowings of a book, counted from its rows, are the ledger rows for the book with no return date |
| Models.NoRowsNoCount | models.py:60 | a book's open count is zero exactly when none of its rows is open |
| Models.OpenCountAppend | models.py:60 | a new borrowing adds to the open count of its own book only, and only while open |
| Models.OpenCountUpdate | models.py:60 | rewriting a borrowing of the same book changes that book's open count by the change in openness, and no other book's count |
| Models.OpenCountSplice | models.py:60 | the open count of a ledger split around a row is the sum of the parts |
| Models.OverdueBooks | models.py:26-33 | the loop returns the user's borrowings that are open and past due, in ledger order |
| Models.OverdueMembers | models.py:26-33 | a borrowing is on the overdue list exactly when it is the user's, open, and past its due date |
| Models.OverdueAmongBorrowed | models.py:22-33 | a user never has more overdue loans than open loans |
| Models.IsOverdue | models.py:82-85 | a loan is overdue while it has no return date and its due date is before now; `DueAndOverdueExclusive` and `OverdueMembers` relate it to the day counts and the overdue list |
| Models.DaysUntilDue | models.py:87-93 | the result is never negative and is 0 once returned or past due; otherwise the floor of the days left |
| Models.DaysOverdue | models.py:95-100 | the result is 0 when returned or not overdue; otherwise the floor of the days since the due date |
| Models.DueAndOverdueExclusive | models.py:82-100 | a loan with days overdue has no days left and is overdue; a loan with days left has none overdue and is not overdue |
| Models.ReviewCount | models.py:150-153 | a book's review count is at most the number of reviews |
| Models.ReviewCountIsRowCount | models.py:150-153 | a book's review count is the number of review rows that name the book |
| Models.RatingSumBounds | models.py:129 | ratings in 1..5 sum to between once and five times their number |
| Models.RatingSumAppend | models.py:147 | the rating total of two runs of reviews is the sum of their totals |
| Models.BookReviewsSplice | models.py:147 | the reviews of a book in a table split around a review are the parts' reviews with that review in between |
| Models.ReviewCountUpdate | models.py:150-153 | rewriting a review in place keeps every book's review count |
| Models.RatingSumUpdate | models.py:147 | rewriting a review in place moves its book's rating total by the change in rating |
| Models.AverageRating | models.py:143-148 | 0 for a book with no reviews; otherwise the average times the review count equals the rating total |
| Models.MeanBounds | models.py:147 | a total between once and five times a positive count has a mean in 1..5 |
| Models.AverageRatingInRange | models.py:143-148 | when every stored rating is in 1..5, a reviewed book's average is in 1..5 |
| Seqs.Filter | models.py:24 | a comprehension keeps no more rows than it reads, and only rows that satisfy its condition |
| Seqs.FilterMembers | models.py:24 | a row is kept exactly when it is in the input and satisfies the condition |
| Seqs.FilterAppend | models.py:30-32 | filtering distributes over concatenation, so row order is kept |
| Seqs.FilterAll | models.py:24 | a condition every row satisfies keeps the input unchanged |
| Seqs.FilterMonotone | models.py:24 | a weaker condition keeps at least as many rows |
| Seqs.CountWhereAppend | models.py:24 | appending a row adds one to the count exactly when the row satisfies both conditions |
| Seqs.NestedFilterCount | models.py:24 | filtering by a relationship and then by openness keeps exactly the rows that satisfy both |
| Seqs.FilterUpdateLength | models.py:153 | replacing one row changes a filter's length by that row's contribution only |
| Seqs.IndexOfKey | app.py:56 | a lookup by key finds the first row with that key, or reports that no row has it |
| Seqs.IndexOfKeyAppend | app.py:66 | after an insert, earlier lookups are kept and the new row can be found |
| Seqs.LookupsKept | app.py:66 | after an insert, every key that was found is still found |
| Seqs.IndexOfUniqueKey | models.py:40 | in a unique column, looking up a row's key finds that row |
| Seqs.UniqueKeysAppend | models.py:9-10 | a row whose key is absent keeps a column unique |
| Seqs.UniqueKeysUpdate | models.py:116 | replacing a row by one with the same key keeps a column unique |
| Seqs.UniqueKeysRemove | models.py:116 | deleting a row keeps a column unique |
| Seqs.NextKey | models.py:72 | a new row's id is at least 1, above every existing id, and 1 for an empty table |
| Seqs.NextKeyIsMaxPlusOne | models.py:72 | in a table with rows, a new row's id is one more than some existing id |
| Seqs.NextKeyIsFresh | models.py:72 | a new row's id is not yet taken |
| FormFields.Strip | app.py:45 | Python's `str.strip()`: the `str.isspace()` characters removed from both ends; `StripSpec` and `StripIdempotent` state its properties |
| FormFields.StripWith | app.py:45 | removing the characters of a given whitespace set from both ends, first leading then trailing; `StripSpec` states its properties |
| FormFields.IntStrip | app.py:317 | the text `int()` reads after skipping tab, line feed, vertical tab, form feed, carriage return, space and the non-ASCII `str.isspace()` characters, but not U+001C..U+001F |
| FormFields.StripStartSpec | app.py:45 | removing a leading run drops a prefix of characters from the set and leaves none in front |
| FormFields.StripEndSpec | app.py:45 | removing a trailing run drops a suffix of characters from the set and leaves none at the end |
| FormFields.StripSpec | app.py:45 | a stripped field is a slice of the input with no whitespace at either end, and is empty exactly when the input is all whitespace |
| FormFields.StripTrimmed | app.py:45 | text without whitespace at either end is unchanged by stripping |
| FormFields.StripIdempotent | app.py:45 | stripping twice is the same as stripping once, for any whitespace set |
| FormFields.AllDigitsIsGroup | app.py:317 | a run of ASCII digits is a valid integer literal |
| FormFields.DigitValue | app.py:317 | an ASCII digit's value is below ten |
| FormFields.ParseSigned | app.py:317 | a parsed signed literal is not empty |
| FormFields.ParseInt | app.py:317 | `int()` succeeds only on text that is not blank once the whitespace `int()` skips is removed |
| FormFields.DigitChar | app.py:317 | the digit character for a value below ten has that value |
| FormFields.NatDigits | app.py:317 | the decimal form of a natural number is a non-empty run of digits |
| FormFields.NatDigitsValue | app.py:317 | the digits of a natural number read back as that number |
| FormFields.GroupValueOfDigits | app.py:317 | the decimal form of a natural number is a valid literal whose value is that number |
| FormFields.DecimalIsTrimmed | app.py:317 | the decimal form of an integer has nothing `int()` would skip around it |
| FormFields.ParseIntDecimal | app.py:317 | `int(str(n)) == n` for every integer n |
| FormFields.ParseIntIgnoresSpace | app.py:317 | `int()` gives the same result with or without the whitespace it skips around the number |
| FormFields.ParseIntAfterStrip | app.py:316 | on text already stripped by `str.strip()`, `int()` skips nothing more and reads the text as it is |
| FormFields.SeparatorNotSkipped | app.py:261 | `str.strip()` removes a leading U+001C but `int()` does not skip it: `int()` rejects "\x1c4" and reads "4" as 4 |
| Models.OpenLoans | models.py:60 | every borrowing kept is open |
| Models.BookLoans | models.py:53 | the `borrowings` relationship of a book: its ledger rows in ledger order; `FilterMembers` gives its membership |
| Models.UserLoans | models.py:17 | the `borrowings` relationship of a user: its ledger rows in ledger order; `FilterMembers` gives its membership |
| Library.AvailableNeverNegative | models.py:58-61 | under the capacity rule, a book with non-negative quantity shows between 0 and quantity copies |
| Library.RefersBelowNextBook | models.py:74 | every book id a row refers to is below the next book's id |
| Library.RefersNewUser | models.py:73 | a new account keeps every reference valid |
| Library.RefersNewBook | models.py:74 | a new book keeps every reference valid |
| Library.RefersAppend | models.py:73-74 | a row naming an existing user and book keeps every reference valid |
| Library.RefersUpdate | models.py:73-74 | replacing a row by one naming the same user and book keeps every reference valid |
| Library.RefersRemove | models.py:108-109 | deleting a row keeps every reference valid |
| Library.AddUserKeepsValid | app.py:56-67 | registering an account with a fresh id, username and email keeps every table valid |
| Library.CapacityNewBook | app.py:335-339 | a book no borrowing names keeps the capacity rule and has all its copies on the shelf |
| Library.AddBookKeepsValid | app.py:335-339 | adding a book with a fresh id and ISBN keeps every table valid, with all its copies on the shelf |
| Library.CapacityBorrow | app.py:156-165 | lending a copy of a book that has one keeps the capacity rule, takes one copy of that book and no copy of any other |
| Library.LoanTermsAppend | app.py:159-161 | a loan due fourteen days after it was taken out keeps every loan on those terms |
| Library.BorrowKeepsValid | app.py:156-165 | a successful borrow keeps the ledger valid and moves availability only for the borrowed book |
| Library.CapacityReturn | app.py:185-187 | a return keeps the capacity rule; the book gets a copy back only if the loan was open |
| Library.ReturnKeepsValid | app.py:185-187 | setting a return date keeps the ledger valid |
| Library.AddEntryKeepsValid | app.py:206-213 | a wishlist entry for a new (user, book) pair keeps the wishlist valid |
| Library.RemoveEntryKeepsValid | app.py:230-232 | deleting a wishlist entry keeps the wishlist valid |
| Library.AddReviewKeepsValid | app.py:274-280 | a first review of a (user, book) pair rated 1..5 keeps the reviews valid |
| Library.UpdateReviewKeepsValid | app.py:268-280 | rewriting an existing review's rating and comment keeps the reviews valid |
| Library.Library.Valid | models.py:9-10 | the store invariant: unique user ids, usernames and emails (models.py:9-10), book ids and ISBNs (models.py:43), wishlist and review pairs (models.py:116, 138); references to existing users and books; fourteen-day loans; ratings in 1..5; the capacity rule |
| Library.Library.constructor | models.py:4-14 | the store starts valid with only the given accounts |
| Library.Library.InsertUser | app.py:66-67 | committing a new account appends exactly that account |
| Library.Library.InsertBook | app.py:337-344 | commit of a book: Duplicate and no change when the ISBN exists, otherwise exactly that book appended with all copies on the shelf |
| Library.Library.InsertBorrowing | app.py:163-165 | committing a loan appends exactly that loan; only its book loses one copy |
| Library.Library.SetReturnDate | app.py:185-187 | only that borrowing's return date changes; its book gets a copy back only if the loan was open |
| Library.Library.InsertWishlistEntry | app.py:210-213 | committing an entry appends exactly that entry |
| Library.Library.DeleteWishlistEntry | app.py:230-232 | committing a deletion removes exactly that entry |
| Library.Library.InsertReview | app.py:275-280 | committing a first review appends exactly that review |
| Library.Library.UpdateReview | app.py:269-280 | an in-place rewrite changes only that review; the book's review count is kept and its rating total moves by the change |
| Library.Library.Register | app.py:43-67 | each rejection and its order; on success exactly one non-admin account with the stripped username and email is appended |
| Library.Library.Borrow | app.py:146-170 | NotFound, NoCopies, then an unknown session user; on success exactly one open loan due in fourteen days; only that book loses one copy; books untouched |
| Library.Library.Return | app.py:173-192 | NotFound, then Forbidden for another user's loan; on success only that return date is set, with no already-returned guard |
| Library.Library.AddToWishlist | app.py:195-218 | NotFound, unknown session user, then Duplicate for a pair already listed; otherwise exactly one entry is appended |
| Library.Library.RemoveFromWishlist | app.py:221-237 | an unknown entry and another user's entry are both NotFound; otherwise exactly that entry is deleted |
| Library.Library.SubmitReview | app.py:250-285 | NotFound, then a missing, unparsable or out-of-range rating is Invalid, then ServerError for an unknown session user; otherwise an in-place update of the caller's review, or exactly one new review |
| Library.Library.AddBook | app.py:304-344 | Forbidden for non-admins, an unparsable quantity, blank fields, an unparsable year, a duplicate ISBN; otherwise exactly one book is appended |

## Left out

- The web layer: routing, `session`, `flash`, `redirect` and `render_template`. The login check that redirects an anonymous visitor is left out because the caller's id is a parameter.
- Password hashing and checking. The hash is the opaque `credential` parameter of `Register`.
- Login, logout, the dashboard, and the book list with its text search, pagination and availability filter. These are read-only views built on ORM queries.
- The cover upload (file I/O, `uuid`, `secure_filename`). Its result is the `coverPath` parameter. As in the handler, the upload happens before the blank-field check, and its path replaces the image URL.
- Integer width. Ids, quantities and years are unbounded integers, but SQLite stores 64-bit integers. An id of 2^63 or more in a URL makes `Book.query.get` and the other lookups by id raise an uncaught OverflowError, which is a server error (app.py:152, 178, 201, 226, 256). The model returns `NotFound` for such an id. A quantity or year outside the 64-bit range makes the commit in `admin_books` fail and roll back (app.py:337-344). The model's `AddBook` returns `Ok` and appends the book.
- Commit failures other than the ISBN unique constraint, such as I/O errors. The constraint failure is modelled as `Duplicate` with no change, as after the rollback.
- Cascade deletes. No handler in the model deletes users or books.
- Concurrency. The check-then-insert race in `borrow_book` is not modelled because the model is sequential.
- AverageRating: the result is exact and is not rounded to one decimal as `round(avg, 1)` does, because floating point is out.
- `datetime.now()`. The current instant is the parameter `now`. Each handler reads it once, while the source may read the clock more than once.
- `created_at` and `updated_at` of users and books. They have no bearing on the ledger.
- The stored `available` flag of a book. It is informational; availability is always derived from the ledger.
- Column length limits such as `String(13)` for the ISBN. SQLite does not enforce them.
- ParseInt: only ASCII digits are accepted. Python's `int()` also accepts other Unicode decimal digits, and it limits the number of digits.
- The browser script and the seeding, debugging and schema scripts.
