/**
 * The state-changing request handlers of the library application, with the
 * web layer taken away: the logged-in user's id, the submitted form fields
 * and the current instant are parameters, and each handler returns how it
 * ended instead of flashing a message and redirecting.
 *
 * The store is a `Library` object holding one sequence of rows per table.
 * Its invariant `Valid()` collects the schema's unique constraints, the
 * references between tables that the handlers maintain, the fixed loan
 * period, the rating range, and the capacity rule: no book has more open
 * borrowings than copies.
 */
module Library {
  import opened Seqs
  import opened FormFields
  import opened Models

  /** How a handler ends; every outcome but `Ok` leaves the store unchanged. */
  datatype Outcome =
    | Ok           // the change was committed
    | NotFound     // the book, borrowing or wishlist entry does not exist
    | NoCopies     // every copy of the book is out on loan
    | Forbidden    // the borrowing is someone else's, or the caller is no admin
    | Invalid      // a required field is blank, the passwords differ, or the rating is out of range
    | Duplicate    // the username, email, ISBN or wishlist entry already exists
    | ServerError  // the handler raises: an unknown session user, or a number that does not parse

  predicate HasUser(users: seq<User>, id: nat)
  {
    IndexOfKey(users, UserKey, id).Some?
  }

  predicate HasBook(books: seq<Book>, id: nat)
  {
    IndexOfKey(books, BookKey, id).Some?
  }

  function Max0(n: int): nat
  {
    if n > 0 then n else 0
  }

  // The columns that refer to a user or a book.
  function LoanUser(b: Borrowing): nat { b.userId }
  function LoanBook(b: Borrowing): nat { b.bookId }
  function EntryUser(w: WishlistEntry): nat { w.userId }
  function EntryBook(w: WishlistEntry): nat { w.bookId }
  function ReviewUser(r: Review): nat { r.userId }
  function ReviewBook(r: Review): nat { r.bookId }

  /** Ids, usernames and emails are unique. */
  ghost predicate UsersValid(users: seq<User>)
  {
    UniqueKeys(users, UserKey) && UniqueKeys(users, UserName) && UniqueKeys(users, UserEmail)
  }

  /** Ids and ISBNs are unique. */
  ghost predicate BooksValid(books: seq<Book>)
  {
    UniqueKeys(books, BookKey) && UniqueKeys(books, BookIsbn)
  }

  /** Every row of `rows` names an existing user and an existing book. */
  ghost predicate Refers<T>(users: seq<User>, books: seq<Book>, rows: seq<T>, user: T -> nat, book: T -> nat)
  {
    forall i :: 0 <= i < |rows| ==> HasUser(users, user(rows[i])) && HasBook(books, book(rows[i]))
  }

  /** Every borrowing is due the loan period after it was taken out. */
  ghost predicate LoanTerms(ledger: seq<Borrowing>)
  {
    forall i :: 0 <= i < |ledger| ==> ledger[i].dueDate == ledger[i].borrowDate + LoanPeriod
  }

  /** No book has more open borrowings than copies (none at all if its quantity is not positive). */
  ghost predicate WithinCapacity(books: seq<Book>, ledger: seq<Borrowing>)
  {
    forall j :: 0 <= j < |books| ==> OpenCount(ledger, books[j].id) <= Max0(books[j].quantity)
  }

  /** The borrowing ledger: unique ids, valid references, fixed loan terms and the capacity rule. */
  ghost predicate LedgerValid(users: seq<User>, books: seq<Book>, ledger: seq<Borrowing>)
  {
    && UniqueKeys(ledger, LoanKey)
    && Refers(users, books, ledger, LoanUser, LoanBook)
    && LoanTerms(ledger)
    && WithinCapacity(books, ledger)
  }

  /** One entry per (user, book), each naming a known user and book. */
  ghost predicate WishlistValid(users: seq<User>, books: seq<Book>, entries: seq<WishlistEntry>)
  {
    && UniqueKeys(entries, EntryKey)
    && UniqueKeys(entries, EntryPair)
    && Refers(users, books, entries, EntryUser, EntryBook)
  }

  /** Every rating is from 1 to 5. */
  ghost predicate RatingsInRange(reviews: seq<Review>)
  {
    forall i :: 0 <= i < |reviews| ==> 1 <= reviews[i].rating <= 5
  }

  /** One review per (user, book), each naming a known user and book, rated 1 to 5. */
  ghost predicate ReviewsValid(users: seq<User>, books: seq<Book>, reviews: seq<Review>)
  {
    && UniqueKeys(reviews, ReviewKey)
    && UniqueKeys(reviews, ReviewPair)
    && Refers(users, books, reviews, ReviewUser, ReviewBook)
    && RatingsInRange(reviews)
  }

  /** Under the capacity rule a book with a non-negative quantity never shows fewer than 0 copies. */
  lemma AvailableNeverNegative(books: seq<Book>, ledger: seq<Borrowing>, j: nat)
    requires WithinCapacity(books, ledger) && j < |books| && books[j].quantity >= 0
    ensures 0 <= AvailableCount(books[j], ledger) <= books[j].quantity
  {
  }

  /** Every book id a row refers to is below the id the next book receives. */
  lemma RefersBelowNextBook(books: seq<Book>, id: nat)
    requires HasBook(books, id)
    ensures id < NextKey(books, BookKey)
  {
  }

  /** A new account keeps every reference valid. */
  lemma RefersNewUser<T>(users: seq<User>, books: seq<Book>, rows: seq<T>, user: T -> nat, book: T -> nat, u: User)
    requires Refers(users, books, rows, user, book)
    ensures Refers(users + [u], books, rows, user, book)
  {
    LookupsKept(users, u, UserKey);
  }

  /** A new book keeps every reference valid. */
  lemma RefersNewBook<T>(users: seq<User>, books: seq<Book>, rows: seq<T>, user: T -> nat, book: T -> nat, b: Book)
    requires Refers(users, books, rows, user, book)
    ensures Refers(users, books + [b], rows, user, book)
  {
    LookupsKept(books, b, BookKey);
  }

  /** Appending a row with valid references keeps every reference valid. */
  lemma RefersAppend<T>(users: seq<User>, books: seq<Book>, rows: seq<T>, user: T -> nat, book: T -> nat, x: T)
    requires Refers(users, books, rows, user, book)
    requires HasUser(users, user(x)) && HasBook(books, book(x))
    ensures Refers(users, books, rows + [x], user, book)
  {
    var t := rows + [x];
    assert forall i :: 0 <= i < |rows| ==> t[i] == rows[i];
  }

  /** Replacing a row by one naming the same user and book keeps every reference valid. */
  lemma RefersUpdate<T>(users: seq<User>, books: seq<Book>, rows: seq<T>, user: T -> nat, book: T -> nat, i: nat, y: T)
    requires Refers(users, books, rows, user, book) && i < |rows|
    requires user(y) == user(rows[i]) && book(y) == book(rows[i])
    ensures Refers(users, books, rows[i := y], user, book)
  {
    var t := rows[i := y];
    assert forall a :: 0 <= a < |t| ==> user(t[a]) == user(rows[a]) && book(t[a]) == book(rows[a]);
  }

  /** Deleting a row keeps every reference valid. */
  lemma RefersRemove<T>(users: seq<User>, books: seq<Book>, rows: seq<T>, user: T -> nat, book: T -> nat, i: nat)
    requires Refers(users, books, rows, user, book) && i < |rows|
    ensures Refers(users, books, rows[..i] + rows[i + 1..], user, book)
  {
    var t := rows[..i] + rows[i + 1..];
    assert forall a :: 0 <= a < |t| ==> t[a] == rows[if a < i then a else a + 1];
  }

  /** Registering a fresh account keeps every table valid. */
  lemma AddUserKeepsValid(
    users: seq<User>, books: seq<Book>, ledger: seq<Borrowing>,
    entries: seq<WishlistEntry>, reviews: seq<Review>, u: User)
    requires UsersValid(users) && LedgerValid(users, books, ledger)
    requires WishlistValid(users, books, entries) && ReviewsValid(users, books, reviews)
    requires u.id == NextKey(users, UserKey)
    requires IndexOfKey(users, UserName, u.username).None?
    requires IndexOfKey(users, UserEmail, u.email).None?
    ensures UsersValid(users + [u]) && LedgerValid(users + [u], books, ledger)
    ensures WishlistValid(users + [u], books, entries) && ReviewsValid(users + [u], books, reviews)
  {
    NextKeyIsFresh(users, UserKey);
    UniqueKeysAppend(users, u, UserKey);
    UniqueKeysAppend(users, u, UserName);
    UniqueKeysAppend(users, u, UserEmail);
    RefersNewUser(users, books, ledger, LoanUser, LoanBook, u);
    RefersNewUser(users, books, entries, EntryUser, EntryBook, u);
    RefersNewUser(users, books, reviews, ReviewUser, ReviewBook, u);
  }

  /** A book no borrowing names may join the catalog without breaking the capacity rule. */
  lemma CapacityNewBook(books: seq<Book>, ledger: seq<Borrowing>, b: Book)
    requires WithinCapacity(books, ledger)
    requires forall i :: 0 <= i < |ledger| ==> ledger[i].bookId != b.id
    ensures WithinCapacity(books + [b], ledger)
    ensures AvailableCount(b, ledger) == b.quantity
  {
    NoRowsNoCount(ledger, b.id);
    var nb := books + [b];
    assert forall j :: 0 <= j < |books| ==> nb[j] == books[j];
  }

  /** Adding a book with a fresh id and ISBN keeps every table valid; nothing is lent of it yet. */
  lemma AddBookKeepsValid(
    users: seq<User>, books: seq<Book>, ledger: seq<Borrowing>,
    entries: seq<WishlistEntry>, reviews: seq<Review>, b: Book)
    requires BooksValid(books) && LedgerValid(users, books, ledger)
    requires WishlistValid(users, books, entries) && ReviewsValid(users, books, reviews)
    requires b.id == NextKey(books, BookKey)
    requires IndexOfKey(books, BookIsbn, b.isbn).None?
    ensures BooksValid(books + [b]) && LedgerValid(users, books + [b], ledger)
    ensures WishlistValid(users, books + [b], entries) && ReviewsValid(users, books + [b], reviews)
    ensures AvailableCount(b, ledger) == b.quantity
  {
    NextKeyIsFresh(books, BookKey);
    UniqueKeysAppend(books, b, BookKey);
    UniqueKeysAppend(books, b, BookIsbn);
    RefersNewBook(users, books, ledger, LoanUser, LoanBook, b);
    RefersNewBook(users, books, entries, EntryUser, EntryBook, b);
    RefersNewBook(users, books, reviews, ReviewUser, ReviewBook, b);
    forall i | 0 <= i < |ledger| ensures ledger[i].bookId != b.id {
      assert HasBook(books, LoanBook(ledger[i]));
      RefersBelowNextBook(books, ledger[i].bookId);
    }
    CapacityNewBook(books, ledger, b);
  }

  /**
   * Lending a copy of `books[j]`, which has one on the shelf, keeps the
   * capacity rule, takes exactly one copy of that book, and no copy of any other.
   */
  lemma CapacityBorrow(books: seq<Book>, ledger: seq<Borrowing>, j: nat, loan: Borrowing)
    requires UniqueKeys(books, BookKey) && WithinCapacity(books, ledger)
    requires j < |books| && loan.bookId == books[j].id && IsOpen(loan)
    requires AvailableCount(books[j], ledger) > 0
    ensures WithinCapacity(books, ledger + [loan])
    ensures forall k :: 0 <= k < |books| ==>
              AvailableCount(books[k], ledger + [loan]) ==
              AvailableCount(books[k], ledger) - (if books[k].id == loan.bookId then 1 else 0)
  {
    forall k | 0 <= k < |books| ensures
      OpenCount(ledger + [loan], books[k].id) ==
      OpenCount(ledger, books[k].id) + (if k == j then 1 else 0)
    {
      OpenCountAppend(ledger, loan, books[k].id);
      if k != j {
        assert BookKey(books[k]) != BookKey(books[j]);
      }
    }
  }

  /** Appending a borrowing due the loan period after it was taken out keeps the loan terms. */
  lemma LoanTermsAppend(ledger: seq<Borrowing>, loan: Borrowing)
    requires LoanTerms(ledger) && loan.dueDate == loan.borrowDate + LoanPeriod
    ensures LoanTerms(ledger + [loan])
  {
    var nl := ledger + [loan];
    assert forall i :: 0 <= i < |ledger| ==> nl[i] == ledger[i];
  }

  /** Lending a copy of a book that has one on the shelf keeps the ledger valid. */
  lemma BorrowKeepsValid(
    users: seq<User>, books: seq<Book>, ledger: seq<Borrowing>, j: nat, loan: Borrowing)
    requires BooksValid(books) && LedgerValid(users, books, ledger)
    requires j < |books| && loan.bookId == books[j].id && AvailableCount(books[j], ledger) > 0
    requires HasUser(users, loan.userId) && loan.id == NextKey(ledger, LoanKey)
    requires IsOpen(loan) && loan.dueDate == loan.borrowDate + LoanPeriod
    ensures LedgerValid(users, books, ledger + [loan])
    ensures forall k :: 0 <= k < |books| ==>
              AvailableCount(books[k], ledger + [loan]) ==
              AvailableCount(books[k], ledger) - (if books[k].id == loan.bookId then 1 else 0)
  {
    NextKeyIsFresh(ledger, LoanKey);
    UniqueKeysAppend(ledger, loan, LoanKey);
    IndexOfUniqueKey(books, BookKey, j);
    RefersAppend(users, books, ledger, LoanUser, LoanBook, loan);
    LoanTermsAppend(ledger, loan);
    CapacityBorrow(books, ledger, j, loan);
  }

  /**
   * Setting the return date of `ledger[i]` keeps the capacity rule. If the
   * loan was open, its book gets one copy back; if it had already been
   * returned, no count changes. No other book's count changes.
   */
  lemma CapacityReturn(books: seq<Book>, ledger: seq<Borrowing>, i: nat, now: int)
    requires WithinCapacity(books, ledger) && i < |ledger|
    ensures WithinCapacity(books, ledger[i := ledger[i].(returnDate := Some(now))])
    ensures forall k :: 0 <= k < |books| ==>
      AvailableCount(books[k], ledger[i := ledger[i].(returnDate := Some(now))]) ==
      AvailableCount(books[k], ledger) +
        (if books[k].id == ledger[i].bookId && IsOpen(ledger[i]) then 1 else 0)
  {
    var closed := ledger[i].(returnDate := Some(now));
    forall k | 0 <= k < |books| ensures
      OpenCount(ledger[i := closed], books[k].id) ==
      OpenCount(ledger, books[k].id) -
        (if books[k].id == ledger[i].bookId && IsOpen(ledger[i]) then 1 else 0)
    {
      OpenCountUpdate(ledger, i, closed, books[k].id);
    }
  }

  /** Setting the return date of a borrowing keeps the ledger valid. */
  lemma ReturnKeepsValid(users: seq<User>, books: seq<Book>, ledger: seq<Borrowing>, i: nat, now: int)
    requires LedgerValid(users, books, ledger) && i < |ledger|
    ensures LedgerValid(users, books, ledger[i := ledger[i].(returnDate := Some(now))])
  {
    var closed := ledger[i].(returnDate := Some(now));
    var nl := ledger[i := closed];
    UniqueKeysUpdate(ledger, i, closed, LoanKey);
    RefersUpdate(users, books, ledger, LoanUser, LoanBook, i, closed);
    assert forall a :: 0 <= a < |nl| ==>
      nl[a].dueDate == ledger[a].dueDate && nl[a].borrowDate == ledger[a].borrowDate;
    CapacityReturn(books, ledger, i, now);
  }

  /** Adding a wishlist entry for a new (user, book) pair keeps the wishlist valid. */
  lemma AddEntryKeepsValid(users: seq<User>, books: seq<Book>, entries: seq<WishlistEntry>, e: WishlistEntry)
    requires WishlistValid(users, books, entries)
    requires HasUser(users, e.userId) && HasBook(books, e.bookId)
    requires e.id == NextKey(entries, EntryKey)
    requires IndexOfKey(entries, EntryPair, (e.userId, e.bookId)).None?
    ensures WishlistValid(users, books, entries + [e])
  {
    NextKeyIsFresh(entries, EntryKey);
    UniqueKeysAppend(entries, e, EntryKey);
    UniqueKeysAppend(entries, e, EntryPair);
    RefersAppend(users, books, entries, EntryUser, EntryBook, e);
  }

  /** Deleting a wishlist entry keeps the wishlist valid. */
  lemma RemoveEntryKeepsValid(users: seq<User>, books: seq<Book>, entries: seq<WishlistEntry>, i: nat)
    requires WishlistValid(users, books, entries) && i < |entries|
    ensures WishlistValid(users, books, entries[..i] + entries[i + 1..])
  {
    UniqueKeysRemove(entries, i, EntryKey);
    UniqueKeysRemove(entries, i, EntryPair);
    RefersRemove(users, books, entries, EntryUser, EntryBook, i);
  }

  /** Inserting the first review of a (user, book) pair with a rating from 1 to 5 keeps the reviews valid. */
  lemma AddReviewKeepsValid(users: seq<User>, books: seq<Book>, reviews: seq<Review>, r: Review)
    requires ReviewsValid(users, books, reviews)
    requires HasUser(users, r.userId) && HasBook(books, r.bookId) && 1 <= r.rating <= 5
    requires r.id == NextKey(reviews, ReviewKey)
    requires IndexOfKey(reviews, ReviewPair, (r.userId, r.bookId)).None?
    ensures ReviewsValid(users, books, reviews + [r])
  {
    NextKeyIsFresh(reviews, ReviewKey);
    UniqueKeysAppend(reviews, r, ReviewKey);
    UniqueKeysAppend(reviews, r, ReviewPair);
    RefersAppend(users, books, reviews, ReviewUser, ReviewBook, r);
    var nr := reviews + [r];
    assert forall i :: 0 <= i < |reviews| ==> nr[i] == reviews[i];
  }

  /** Rewriting the rating and comment of an existing review keeps the reviews valid. */
  lemma UpdateReviewKeepsValid(
    users: seq<User>, books: seq<Book>, reviews: seq<Review>, i: nat,
    rating: int, comment: string, now: int)
    requires ReviewsValid(users, books, reviews) && i < |reviews| && 1 <= rating <= 5
    ensures ReviewsValid(users, books,
              reviews[i := reviews[i].(rating := rating, comment := comment, updatedAt := now)])
  {
    var updated := reviews[i].(rating := rating, comment := comment, updatedAt := now);
    UniqueKeysUpdate(reviews, i, updated, ReviewKey);
    UniqueKeysUpdate(reviews, i, updated, ReviewPair);
    RefersUpdate(users, books, reviews, ReviewUser, ReviewBook, i, updated);
  }

  class Library {
    var users: seq<User>
    var books: seq<Book>
    var borrowings: seq<Borrowing>
    var wishlist: seq<WishlistEntry>
    var reviews: seq<Review>

    ghost predicate Valid()
      reads this
    {
      && UsersValid(users)
      && BooksValid(books)
      && LedgerValid(users, books, borrowings)
      && WishlistValid(users, books, wishlist)
      && ReviewsValid(users, books, reviews)
    }

    /**
     * A store holding only the given accounts; administrator accounts
     * exist only this way, since registration never grants the flag.
     */
    constructor (accounts: seq<User>)
      requires UsersValid(accounts)
      ensures Valid()
      ensures users == accounts && books == [] && borrowings == [] && wishlist == [] && reviews == []
    {
      users, books, borrowings, wishlist, reviews := accounts, [], [], [], [];
    }

    // The session operations the handlers commit: each changes one table.

    /** Adding and committing a new account whose username and email are not taken. */
    method InsertUser(u: User)
      requires Valid() && u.id == NextKey(users, UserKey)
      requires IndexOfKey(users, UserName, u.username).None?
      requires IndexOfKey(users, UserEmail, u.email).None?
      modifies this`users
      ensures Valid()
      ensures users == old(users) + [u]
    {
      AddUserKeepsValid(users, books, borrowings, wishlist, reviews, u);
      users := users + [u];
    }

    /**
     * Adding a book row and committing it: the unique constraint on the
     * ISBN column makes the commit fail and roll back when the ISBN is
     * already in the catalog.
     */
    method InsertBook(book: Book) returns (outcome: Outcome)
      requires Valid() && book.id == NextKey(books, BookKey)
      modifies this`books
      ensures Valid()
      ensures outcome == if IndexOfKey(old(books), BookIsbn, book.isbn).Some? then Duplicate else Ok
      ensures books == if outcome == Ok then old(books) + [book] else old(books)
      ensures outcome == Ok ==> AvailableCount(book, borrowings) == book.quantity
    {
      if IndexOfKey(books, BookIsbn, book.isbn).Some? {
        return Duplicate;
      }
      AddBookKeepsValid(users, books, borrowings, wishlist, reviews, book);
      books := books + [book];
      outcome := Ok;
    }

    /**
     * Adding and committing an open borrowing of `books[j]`, which has a
     * copy on the shelf: one copy of that book leaves the shelf and no copy
     * of any other.
     */
    method InsertBorrowing(j: nat, loan: Borrowing)
      requires Valid()
      requires j < |books| && loan.bookId == books[j].id && AvailableCount(books[j], borrowings) > 0
      requires HasUser(users, loan.userId) && loan.id == NextKey(borrowings, LoanKey)
      requires IsOpen(loan) && loan.dueDate == loan.borrowDate + LoanPeriod
      modifies this`borrowings
      ensures Valid()
      ensures borrowings == old(borrowings) + [loan]
      ensures forall k :: 0 <= k < |books| ==>
        AvailableCount(books[k], borrowings) ==
        AvailableCount(books[k], old(borrowings)) - (if books[k].id == loan.bookId then 1 else 0)
    {
      BorrowKeepsValid(users, books, borrowings, j, loan);
      borrowings := borrowings + [loan];
    }

    /**
     * Setting and committing the return date of `borrowings[i]`: its book
     * gets a copy back if the loan was open, and no other count changes.
     */
    method SetReturnDate(i: nat, now: int)
      requires Valid() && i < |borrowings|
      modifies this`borrowings
      ensures Valid()
      ensures borrowings == old(borrowings)[i := old(borrowings)[i].(returnDate := Some(now))]
      ensures forall k :: 0 <= k < |books| ==>
        AvailableCount(books[k], borrowings) ==
        AvailableCount(books[k], old(borrowings)) +
          (if books[k].id == old(borrowings)[i].bookId && IsOpen(old(borrowings)[i]) then 1 else 0)
    {
      ReturnKeepsValid(users, books, borrowings, i, now);
      CapacityReturn(books, borrowings, i, now);
      borrowings := borrowings[i := borrowings[i].(returnDate := Some(now))];
    }

    /** Adding and committing a wishlist entry for a (user, book) pair not yet on the list. */
    method InsertWishlistEntry(e: WishlistEntry)
      requires Valid() && HasUser(users, e.userId) && HasBook(books, e.bookId)
      requires e.id == NextKey(wishlist, EntryKey)
      requires IndexOfKey(wishlist, EntryPair, (e.userId, e.bookId)).None?
      modifies this`wishlist
      ensures Valid()
      ensures wishlist == old(wishlist) + [e]
    {
      AddEntryKeepsValid(users, books, wishlist, e);
      wishlist := wishlist + [e];
    }

    /** Deleting and committing `wishlist[i]`. */
    method DeleteWishlistEntry(i: nat)
      requires Valid() && i < |wishlist|
      modifies this`wishlist
      ensures Valid()
      ensures wishlist == old(wishlist)[..i] + old(wishlist)[i + 1..]
    {
      RemoveEntryKeepsValid(users, books, wishlist, i);
      wishlist := wishlist[..i] + wishlist[i + 1..];
    }

    /** Adding and committing the first review of a (user, book) pair. */
    method InsertReview(r: Review)
      requires Valid() && HasUser(users, r.userId) && HasBook(books, r.bookId) && 1 <= r.rating <= 5
      requires r.id == NextKey(reviews, ReviewKey)
      requires IndexOfKey(reviews, ReviewPair, (r.userId, r.bookId)).None?
      modifies this`reviews
      ensures Valid()
      ensures reviews == old(reviews) + [r]
    {
      AddReviewKeepsValid(users, books, reviews, r);
      reviews := reviews + [r];
    }

    /**
     * Rewriting and committing the rating, comment and update time of
     * `reviews[i]`: the book keeps its review count, and its rating total
     * moves by the change in rating.
     */
    method UpdateReview(i: nat, rating: int, comment: string, now: int)
      requires Valid() && i < |reviews| && 1 <= rating <= 5
      modifies this`reviews
      ensures Valid()
      ensures reviews == old(reviews)[i := old(reviews)[i].(rating := rating, comment := comment, updatedAt := now)]
      ensures ReviewCount(reviews, old(reviews)[i].bookId) == ReviewCount(old(reviews), old(reviews)[i].bookId)
      ensures RatingSum(BookReviews(reviews, old(reviews)[i].bookId)) ==
              RatingSum(BookReviews(old(reviews), old(reviews)[i].bookId)) - old(reviews)[i].rating + rating
    {
      var updated := reviews[i].(rating := rating, comment := comment, updatedAt := now);
      UpdateReviewKeepsValid(users, books, reviews, i, rating, comment, now);
      ReviewCountUpdate(reviews, i, updated, updated.bookId);
      RatingSumUpdate(reviews, i, updated);
      reviews := reviews[i := updated];
    }

    // The request handlers.

    /**
     * `register`: blank username, email or password and a mismatched
     * confirmation are rejected, then a taken username or email; otherwise
     * one non-admin account is appended with the stripped username and
     * email and the credential the password hasher produced.
     */
    method Register(username: string, email: string, password: string,
                    confirmPassword: string, credential: string) returns (outcome: Outcome)
      requires Valid()
      modifies this`users
      ensures Valid()
      ensures outcome ==
        if Strip(username) == [] || Strip(email) == [] || password == [] then Invalid
        else if password != confirmPassword then Invalid
        else if IndexOfKey(old(users), UserName, Strip(username)).Some? then Duplicate
        else if IndexOfKey(old(users), UserEmail, Strip(email)).Some? then Duplicate
        else Ok
      ensures outcome == Ok ==>
        users == old(users) + [User(NextKey(old(users), UserKey), Strip(username), Strip(email), credential, false)]
      ensures outcome != Ok ==> unchanged(this)
    {
      var name, mail := Strip(username), Strip(email);
      if name == [] || mail == [] || password == [] {
        return Invalid;
      }
      if password != confirmPassword {
        return Invalid;
      }
      if IndexOfKey(users, UserName, name).Some? {
        return Duplicate;
      }
      if IndexOfKey(users, UserEmail, mail).Some? {
        return Duplicate;
      }
      InsertUser(User(NextKey(users, UserKey), name, mail, credential, false));
      outcome := Ok;
    }

    /**
     * `borrow_book`: an unknown book is not found and a book without a copy
     * on the shelf is refused; otherwise one open borrowing due fourteen
     * days from now is appended. The book's row is never touched.
     */
    method Borrow(userId: nat, bookId: nat, now: int) returns (outcome: Outcome)
      requires Valid()
      modifies this`borrowings
      ensures Valid()
      ensures var found := IndexOfKey(old(books), BookKey, bookId);
        outcome ==
          if found.None? then NotFound
          else if AvailableCount(old(books)[found.value], old(borrowings)) <= 0 then NoCopies
          else if !HasUser(old(users), userId) then ServerError
          else Ok
      ensures outcome == Ok ==>
        borrowings == old(borrowings) + [Borrowing(NextKey(old(borrowings), LoanKey), userId, bookId, now, now + LoanPeriod, None)]
      ensures outcome == Ok ==> forall k :: 0 <= k < |books| ==>
        AvailableCount(books[k], borrowings) ==
        AvailableCount(books[k], old(borrowings)) - (if books[k].id == bookId then 1 else 0)
      ensures outcome != Ok ==> unchanged(this)
    {
      var found := IndexOfKey(books, BookKey, bookId);
      if found.None? {
        return NotFound;
      }
      if AvailableCount(books[found.value], borrowings) <= 0 {
        return NoCopies;
      }
      if !HasUser(users, userId) {
        return ServerError;
      }
      InsertBorrowing(found.value, Borrowing(NextKey(borrowings, LoanKey), userId, bookId, now, now + LoanPeriod, None));
      outcome := Ok;
    }

    /**
     * `return_book`: an unknown borrowing is not found and someone else's is
     * refused; otherwise its return date becomes now. There is no check that
     * the loan is still open, so a second return succeeds and overwrites the
     * date.
     */
    method Return(userId: nat, loanId: nat, now: int) returns (outcome: Outcome)
      requires Valid()
      modifies this`borrowings
      ensures Valid()
      ensures var found := IndexOfKey(old(borrowings), LoanKey, loanId);
        && outcome ==
             (if found.None? then NotFound
              else if old(borrowings)[found.value].userId != userId then Forbidden
              else Ok)
        && (outcome == Ok ==>
              borrowings == old(borrowings)[found.value := old(borrowings)[found.value].(returnDate := Some(now))])
        && (outcome == Ok ==> forall k :: 0 <= k < |books| ==>
              AvailableCount(books[k], borrowings) ==
              AvailableCount(books[k], old(borrowings)) +
                (if books[k].id == old(borrowings)[found.value].bookId &&
                    IsOpen(old(borrowings)[found.value]) then 1 else 0))
      ensures outcome != Ok ==> unchanged(this)
    {
      var found := IndexOfKey(borrowings, LoanKey, loanId);
      if found.None? {
        return NotFound;
      }
      if borrowings[found.value].userId != userId {
        return Forbidden;
      }
      SetReturnDate(found.value, now);
      outcome := Ok;
    }

    /**
     * `add_to_wishlist`: an unknown book is not found; a (user, book) pair
     * already on the list adds nothing; otherwise one entry is appended.
     */
    method AddToWishlist(userId: nat, bookId: nat, now: int) returns (outcome: Outcome)
      requires Valid()
      modifies this`wishlist
      ensures Valid()
      ensures outcome ==
        if !HasBook(old(books), bookId) then NotFound
        else if !HasUser(old(users), userId) then ServerError
        else if IndexOfKey(old(wishlist), EntryPair, (userId, bookId)).Some? then Duplicate
        else Ok
      ensures outcome == Ok ==>
        wishlist == old(wishlist) + [WishlistEntry(NextKey(old(wishlist), EntryKey), userId, bookId, now)]
      ensures outcome != Ok ==> unchanged(this)
    {
      if !HasBook(books, bookId) {
        return NotFound;
      }
      if !HasUser(users, userId) {
        return ServerError;
      }
      if IndexOfKey(wishlist, EntryPair, (userId, bookId)).Some? {
        return Duplicate;
      }
      InsertWishlistEntry(WishlistEntry(NextKey(wishlist, EntryKey), userId, bookId, now));
      outcome := Ok;
    }

    /**
     * `remove_from_wishlist`: an unknown entry and another user's entry are
     * both reported as not found; otherwise exactly that entry is deleted.
     */
    method RemoveFromWishlist(userId: nat, entryId: nat) returns (outcome: Outcome)
      requires Valid()
      modifies this`wishlist
      ensures Valid()
      ensures var found := IndexOfKey(old(wishlist), EntryKey, entryId);
        && outcome ==
             (if found.None? || old(wishlist)[found.value].userId != userId then NotFound else Ok)
        && (outcome == Ok ==>
              wishlist == old(wishlist)[..found.value] + old(wishlist)[found.value + 1..])
      ensures outcome != Ok ==> unchanged(this)
    {
      var found := IndexOfKey(wishlist, EntryKey, entryId);
      if found.None? || wishlist[found.value].userId != userId {
        return NotFound;
      }
      DeleteWishlistEntry(found.value);
      outcome := Ok;
    }

    /**
     * `submit_review`: an unknown book is not found; a missing rating, one
     * that is not an integer, or one outside 1..5 is rejected; otherwise the
     * caller's review of the book is rewritten in place, or a first one is
     * appended.
     */
    method SubmitReview(userId: nat, bookId: nat, ratingField: Option<string>,
                        comment: string, now: int) returns (outcome: Outcome)
      requires Valid()
      modifies this`reviews
      ensures Valid()
      ensures var rating := if ratingField.Some? then ParseInt(ratingField.value) else None;
        && outcome ==
             (if !HasBook(old(books), bookId) then NotFound
              else if rating.None? || rating.value < 1 || rating.value > 5 then Invalid
              else if !HasUser(old(users), userId) then ServerError
              else Ok)
        && (outcome == Ok ==>
              var existing := IndexOfKey(old(reviews), ReviewPair, (userId, bookId));
              reviews ==
                if existing.Some? then
                  old(reviews)[existing.value := old(reviews)[existing.value].(
                    rating := rating.value, comment := Strip(comment), updatedAt := now)]
                else
                  old(reviews) + [Review(NextKey(old(reviews), ReviewKey), userId, bookId,
                                         rating.value, Strip(comment), now, now)])
      ensures outcome != Ok ==> unchanged(this)
    {
      if !HasBook(books, bookId) {
        return NotFound;
      }
      var rating := if ratingField.Some? then ParseInt(ratingField.value) else None;
      var text := Strip(comment);
      if rating.None? || rating.value < 1 || rating.value > 5 {
        return Invalid;
      }
      if !HasUser(users, userId) {
        return ServerError;
      }
      var existing := IndexOfKey(reviews, ReviewPair, (userId, bookId));
      if existing.Some? {
        UpdateReview(existing.value, rating.value, text, now);
      } else {
        InsertReview(Review(NextKey(reviews, ReviewKey), userId, bookId, rating.value, text, now, now));
      }
      outcome := Ok;
    }

    /**
     * The add-book branch of `admin_books`: only an administrator may add;
     * the quantity (default 1) must be an integer; title, author, ISBN and
     * publication year must not be blank, and the year must be an integer;
     * an ISBN already in the catalog fails the unique constraint. Otherwise
     * one book is appended, marked available, with the uploaded cover's path
     * (when a file was sent) in place of the given image URL.
     */
    method AddBook(actorId: nat, title: string, author: string, isbn: string,
                   publicationYear: string, quantity: Option<string>, description: string,
                   imageUrl: string, coverPath: Option<string>) returns (outcome: Outcome)
      requires Valid()
      modifies this`books
      ensures Valid()
      ensures var actor := IndexOfKey(old(users), UserKey, actorId);
        var copies := if quantity.Some? then ParseInt(quantity.value) else Some(1);
        var year := ParseInt(Strip(publicationYear));
        && outcome ==
             (if actor.None? || !old(users)[actor.value].isAdmin then Forbidden
              else if copies.None? then ServerError
              else if Strip(title) == [] || Strip(author) == [] || Strip(isbn) == [] ||
                      Strip(publicationYear) == [] then Invalid
              else if year.None? then ServerError
              else if IndexOfKey(old(books), BookIsbn, Strip(isbn)).Some? then Duplicate
              else Ok)
        && (outcome == Ok ==>
              books == old(books) + [Book(NextKey(old(books), BookKey), Strip(title), Strip(author),
                Strip(isbn), year.value, copies.value, true, Strip(description),
                if coverPath.Some? then coverPath.value else Strip(imageUrl))])
      ensures outcome != Ok ==> unchanged(this)
    {
      var actor := IndexOfKey(users, UserKey, actorId);
      if actor.None? || !users[actor.value].isAdmin {
        return Forbidden;
      }
      var copies := if quantity.Some? then ParseInt(quantity.value) else Some(1);
      if copies.None? {
        return ServerError;
      }
      var t, a, code, y := Strip(title), Strip(author), Strip(isbn), Strip(publicationYear);
      var cover := if coverPath.Some? then coverPath.value else Strip(imageUrl);
      if t == [] || a == [] || code == [] || y == [] {
        return Invalid;
      }
      var year := ParseInt(y);
      if year.None? {
        return ServerError;
      }
      var book := Book(NextKey(books, BookKey), t, a, code, year.value, copies.value, true,
                       Strip(description), cover);
      outcome := InsertBook(book);
    }
  }
}
