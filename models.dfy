/**
 * The rows of the library's relational schema and the values derived from
 * them: the copies of a book still on the shelf, a user's open loans and
 * overdue loans, the days left on a loan or past its due date, and the
 * average rating of a book.
 *
 * Instants are integers counting microseconds (the resolution of Python's
 * `datetime`); a `timedelta`'s `.days` is the floor of a difference divided
 * by the length of a day.
 */
module Models {
  import opened Seqs

  /** One day, in microseconds. */
  const Day: int := 86_400_000_000

  /** The loan period the borrow handler grants: fourteen days. */
  const LoanPeriod: int := 14 * Day

  datatype User = User(id: nat, username: string, email: string, password: string, isAdmin: bool)

  datatype Book = Book(
    id: nat, title: string, author: string, isbn: string, publicationYear: int,
    quantity: int, available: bool, description: string, imageUrl: string)

  datatype Borrowing = Borrowing(
    id: nat, userId: nat, bookId: nat, borrowDate: int, dueDate: int, returnDate: Option<int>)

  datatype WishlistEntry = WishlistEntry(id: nat, userId: nat, bookId: nat, addedAt: int)

  datatype Review = Review(
    id: nat, userId: nat, bookId: nat, rating: int, comment: string, createdAt: int, updatedAt: int)

  // The columns the model looks rows up by.
  function UserKey(u: User): nat { u.id }
  function UserName(u: User): string { u.username }
  function UserEmail(u: User): string { u.email }
  function BookKey(b: Book): nat { b.id }
  function BookIsbn(b: Book): string { b.isbn }
  function LoanKey(b: Borrowing): nat { b.id }
  function EntryKey(w: WishlistEntry): nat { w.id }
  function EntryPair(w: WishlistEntry): (nat, nat) { (w.userId, w.bookId) }
  function ReviewKey(r: Review): nat { r.id }
  function ReviewPair(r: Review): (nat, nat) { (r.userId, r.bookId) }

  /** A borrowing is open while it has no return date. */
  predicate IsOpen(b: Borrowing)
  {
    b.returnDate.None?
  }

  function OfBook(bookId: nat): Borrowing -> bool
  {
    (b: Borrowing) => b.bookId == bookId
  }

  function OfUser(userId: nat): Borrowing -> bool
  {
    (b: Borrowing) => b.userId == userId
  }

  /** The `borrowings` relationship of a book: its rows of the ledger, in ledger order. */
  function BookLoans(ledger: seq<Borrowing>, bookId: nat): seq<Borrowing>
  {
    Filter(ledger, OfBook(bookId))
  }

  /** The `borrowings` relationship of a user. */
  function UserLoans(ledger: seq<Borrowing>, userId: nat): seq<Borrowing>
  {
    Filter(ledger, OfUser(userId))
  }

  /** The loans among `loans` that have not been returned. */
  function OpenLoans(loans: seq<Borrowing>): (r: seq<Borrowing>)
    ensures forall i :: 0 <= i < |r| ==> IsOpen(r[i])
  {
    Filter(loans, IsOpen)
  }

  /** The number of open borrowings of a book. */
  function OpenCount(ledger: seq<Borrowing>, bookId: nat): (n: nat)
  {
    |OpenLoans(BookLoans(ledger, bookId))|
  }

  /** `Book.get_available_count`: copies owned less copies out on loan. */
  function AvailableCount(book: Book, ledger: seq<Borrowing>): (r: int)
    ensures r <= book.quantity
  {
    book.quantity - OpenCount(ledger, book.id)
  }

  /**
   * The available count is the quantity less the number of ledger rows that
   * name the book and have no return date.
   */
  lemma AvailableCountIsRowCount(book: Book, ledger: seq<Borrowing>)
    ensures AvailableCount(book, ledger) == book.quantity -
            |set i | 0 <= i < |ledger| && ledger[i].bookId == book.id && IsOpen(ledger[i])|
  {
    OpenCountIsRowCount(ledger, book.id);
  }

  /** Every copy is on the shelf exactly when none of the book's borrowings is open. */
  lemma AllCopiesIffNoOpenLoan(book: Book, ledger: seq<Borrowing>)
    ensures AvailableCount(book, ledger) == book.quantity <==>
            forall i :: 0 <= i < |ledger| && ledger[i].bookId == book.id ==> !IsOpen(ledger[i])
  {
    NoRowsNoCount(ledger, book.id);
  }

  /**
   * A book stored with a negative quantity shows fewer than zero copies
   * whatever the ledger holds, even with no borrowing at all.
   */
  lemma NegativeQuantityShowsNegative(book: Book, ledger: seq<Borrowing>)
    requires book.quantity < 0
    ensures AvailableCount(book, ledger) < 0
    ensures AvailableCount(book, []) == book.quantity
  {
    assert BookLoans([], book.id) == [];
  }

  /** `Book.is_available`: at least one copy is on the shelf. */
  predicate IsAvailable(book: Book, ledger: seq<Borrowing>)
  {
    AvailableCount(book, ledger) > 0
  }

  /** A book is available exactly when fewer of its ledger rows are open than it has copies. */
  lemma IsAvailableIffCopyLeft(book: Book, ledger: seq<Borrowing>)
    ensures IsAvailable(book, ledger) <==>
            |set i | 0 <= i < |ledger| && ledger[i].bookId == book.id && IsOpen(ledger[i])| < book.quantity
  {
    AvailableCountIsRowCount(book, ledger);
  }

  /** `User.get_borrowed_books_count`: the number of the user's loans not yet returned. */
  function BorrowedCount(ledger: seq<Borrowing>, userId: nat): (r: nat)
    ensures r == CountWhere(ledger, OfUser(userId), IsOpen)
  {
    NestedFilterCount(ledger, OfUser(userId), IsOpen);
    |OpenLoans(UserLoans(ledger, userId))|
  }

  /**
   * The open borrowings of a book counted row by row: exactly the rows of
   * the ledger that name the book and have no return date.
   */
  lemma OpenCountIsRowCount(ledger: seq<Borrowing>, bookId: nat)
    ensures OpenCount(ledger, bookId) ==
            |set i | 0 <= i < |ledger| && ledger[i].bookId == bookId && IsOpen(ledger[i])|
  {
    NestedFilterCount(ledger, OfBook(bookId), IsOpen);
    var rows := set i | 0 <= i < |ledger| && ledger[i].bookId == bookId && IsOpen(ledger[i]);
    assert IndicesWhere(ledger, OfBook(bookId), IsOpen) == rows;
  }

  /** No open row for a book means a zero count, and a zero count means no open row. */
  lemma NoRowsNoCount(ledger: seq<Borrowing>, bookId: nat)
    ensures OpenCount(ledger, bookId) == 0 <==>
            forall i :: 0 <= i < |ledger| && ledger[i].bookId == bookId ==> !IsOpen(ledger[i])
  {
    var rows := set i | 0 <= i < |ledger| && ledger[i].bookId == bookId && IsOpen(ledger[i]);
    OpenCountIsRowCount(ledger, bookId);
    if rows == {} {
      forall i | 0 <= i < |ledger| && ledger[i].bookId == bookId ensures !IsOpen(ledger[i]) {
        assert i !in rows;
      }
    } else {
      var i :| i in rows;
      assert |rows| > 0;
    }
  }

  /** Appending a borrowing counts it against its own book only, and only while it is open. */
  lemma {:induction false} OpenCountAppend(ledger: seq<Borrowing>, loan: Borrowing, bookId: nat)
    ensures OpenCount(ledger + [loan], bookId) ==
            OpenCount(ledger, bookId) + (if loan.bookId == bookId && IsOpen(loan) then 1 else 0)
  {
    FilterAppend(ledger, [loan], OfBook(bookId));
    FilterAppend(BookLoans(ledger, bookId), Filter([loan], OfBook(bookId)), IsOpen);
    assert Filter([loan], OfBook(bookId)) == if loan.bookId == bookId then [loan] else [];
  }

  /**
   * Replacing one borrowing by another for the same book changes that
   * book's open count by the change in openness, and no other book's.
   */
  lemma {:induction false} OpenCountUpdate(ledger: seq<Borrowing>, i: nat, loan: Borrowing, bookId: nat)
    requires i < |ledger| && loan.bookId == ledger[i].bookId
    ensures OpenCount(ledger[i := loan], bookId) ==
            OpenCount(ledger, bookId)
            - (if ledger[i].bookId == bookId && IsOpen(ledger[i]) then 1 else 0)
            + (if loan.bookId == bookId && IsOpen(loan) then 1 else 0)
  {
    var a, b := ledger[..i], ledger[i + 1..];
    assert ledger == a + [ledger[i]] + b;
    assert ledger[i := loan] == a + [loan] + b;
    OpenCountSplice(a, ledger[i], b, bookId);
    OpenCountSplice(a, loan, b, bookId);
  }

  /** The open count of a ledger split around one row. */
  lemma {:induction false} OpenCountSplice(a: seq<Borrowing>, x: Borrowing, b: seq<Borrowing>, bookId: nat)
    ensures OpenCount(a + [x] + b, bookId) ==
            OpenCount(a, bookId) + (if x.bookId == bookId && IsOpen(x) then 1 else 0) + OpenCount(b, bookId)
  {
    OpenCountAppend(a, x, bookId);
    FilterAppend(a + [x], b, OfBook(bookId));
    FilterAppend(BookLoans(a + [x], bookId), BookLoans(b, bookId), IsOpen);
  }

  /** `Borrowing.is_overdue`: still out and past its due date. */
  predicate IsOverdue(b: Borrowing, now: int)
  {
    b.returnDate.None? && b.dueDate < now
  }

  function OverdueAt(now: int): Borrowing -> bool
  {
    (b: Borrowing) => IsOverdue(b, now)
  }

  /**
   * `Borrowing.days_until_due`: the whole days left before the due date,
   * never negative, and 0 once the book is back.
   */
  function DaysUntilDue(b: Borrowing, now: int): (r: nat)
    ensures b.returnDate.Some? ==> r == 0
    ensures b.returnDate.None? && b.dueDate >= now ==> r * Day <= b.dueDate - now < (r + 1) * Day
    ensures b.returnDate.None? && b.dueDate < now ==> r == 0
  {
    if b.returnDate.None? then
      var remaining := (b.dueDate - now) / Day;
      if remaining > 0 then remaining else 0
    else 0
  }

  /**
   * `Borrowing.days_overdue`: the whole days since the due date while the
   * loan is overdue, 0 when it is returned or not yet due.
   */
  function DaysOverdue(b: Borrowing, now: int): (r: nat)
    ensures !IsOverdue(b, now) ==> r == 0
    ensures IsOverdue(b, now) ==> r * Day <= now - b.dueDate < (r + 1) * Day
  {
    if b.returnDate.None? && IsOverdue(b, now) then (now - b.dueDate) / Day else 0
  }

  /**
   * `User.get_overdue_books`: the loop over the user's borrowings that
   * collects the open ones past their due date, in order.
   */
  method OverdueBooks(ledger: seq<Borrowing>, userId: nat, now: int) returns (overdue: seq<Borrowing>)
    ensures overdue == Filter(UserLoans(ledger, userId), OverdueAt(now))
  {
    var loans := UserLoans(ledger, userId);
    overdue := [];
    for i := 0 to |loans|
      invariant overdue == Filter(loans[..i], OverdueAt(now))
    {
      var borrowing := loans[i];
      FilterAppend(loans[..i], [borrowing], OverdueAt(now));
      assert loans[..i + 1] == loans[..i] + [borrowing];
      if borrowing.returnDate.None? && borrowing.dueDate < now {
        overdue := overdue + [borrowing];
      }
    }
    assert loans[..|loans|] == loans;
  }

  /** The overdue list holds exactly the user's ledger rows that are still out and past due. */
  lemma OverdueMembers(ledger: seq<Borrowing>, userId: nat, now: int, b: Borrowing)
    ensures b in Filter(UserLoans(ledger, userId), OverdueAt(now)) <==>
            b in ledger && b.userId == userId && b.returnDate.None? && b.dueDate < now
  {
    FilterMembers(UserLoans(ledger, userId), OverdueAt(now), b);
    FilterMembers(ledger, OfUser(userId), b);
  }

  /** Every overdue loan of a user is one of the user's open loans. */
  lemma OverdueAmongBorrowed(ledger: seq<Borrowing>, userId: nat, now: int)
    ensures |Filter(UserLoans(ledger, userId), OverdueAt(now))| <= BorrowedCount(ledger, userId)
  {
    FilterMonotone(UserLoans(ledger, userId), OverdueAt(now), IsOpen);
  }

  /** A loan past due has no days left, and a loan not yet due has none overdue. */
  lemma DueAndOverdueExclusive(b: Borrowing, now: int)
    ensures DaysOverdue(b, now) > 0 ==> DaysUntilDue(b, now) == 0 && IsOverdue(b, now)
    ensures DaysUntilDue(b, now) > 0 ==> DaysOverdue(b, now) == 0 && !IsOverdue(b, now)
  {
  }

  function OfReviewedBook(bookId: nat): Review -> bool
  {
    (r: Review) => r.bookId == bookId
  }

  /** The reviews of a book. */
  function BookReviews(reviews: seq<Review>, bookId: nat): (rs: seq<Review>)
  {
    Filter(reviews, OfReviewedBook(bookId))
  }

  /** `Review.get_review_count`. */
  function ReviewCount(reviews: seq<Review>, bookId: nat): (n: nat)
    ensures n <= |reviews|
  {
    |BookReviews(reviews, bookId)|
  }

  /**
   * The review count of a book is the number of review rows that name it,
   * as the `count()` of the filtered query computes.
   */
  lemma ReviewCountIsRowCount(reviews: seq<Review>, bookId: nat)
    ensures ReviewCount(reviews, bookId) == |set i | 0 <= i < |reviews| && reviews[i].bookId == bookId|
  {
    var any := (r: Review) => true;
    FilterAll(BookReviews(reviews, bookId), any);
    NestedFilterCount(reviews, OfReviewedBook(bookId), any);
    var rows := set i | 0 <= i < |reviews| && reviews[i].bookId == bookId;
    assert IndicesWhere(reviews, OfReviewedBook(bookId), any) == rows;
  }

  /** The sum of the ratings of `rs`. */
  function RatingSum(rs: seq<Review>): (total: int)
  {
    if rs == [] then 0 else rs[0].rating + RatingSum(rs[1..])
  }

  /** Ratings between 1 and 5 sum to between once and five times their number. */
  lemma {:induction false} RatingSumBounds(rs: seq<Review>)
    requires forall i :: 0 <= i < |rs| ==> 1 <= rs[i].rating <= 5
    ensures |rs| <= RatingSum(rs) <= 5 * |rs|
  {
    if rs != [] {
      RatingSumBounds(rs[1..]);
    }
  }

  /** The rating total of two runs of reviews is the sum of their totals. */
  lemma {:induction false} RatingSumAppend(a: seq<Review>, b: seq<Review>)
    ensures RatingSum(a + b) == RatingSum(a) + RatingSum(b)
  {
    if a == [] {
      assert a + b == b;
    } else {
      assert (a + b)[0] == a[0];
      assert (a + b)[1..] == a[1..] + b;
      RatingSumAppend(a[1..], b);
    }
  }

  /** The reviews of a book in a table split around one review. */
  lemma {:induction false} BookReviewsSplice(a: seq<Review>, x: Review, b: seq<Review>, bookId: nat)
    ensures BookReviews(a + [x] + b, bookId) ==
            BookReviews(a, bookId) + (if x.bookId == bookId then [x] else []) + BookReviews(b, bookId)
  {
    FilterAppend(a + [x], b, OfReviewedBook(bookId));
    FilterAppend(a, [x], OfReviewedBook(bookId));
    assert Filter([x], OfReviewedBook(bookId)) == if x.bookId == bookId then [x] else [];
  }

  /** Rewriting one review in place, for the same book, keeps every book's review count. */
  lemma ReviewCountUpdate(reviews: seq<Review>, i: nat, y: Review, bookId: nat)
    requires i < |reviews| && y.bookId == reviews[i].bookId
    ensures ReviewCount(reviews[i := y], bookId) == ReviewCount(reviews, bookId)
  {
    FilterUpdateLength(reviews, i, y, OfReviewedBook(bookId));
  }

  /** Rewriting one review in place moves its book's rating total by the change in rating. */
  lemma RatingSumUpdate(reviews: seq<Review>, i: nat, y: Review)
    requires i < |reviews| && y.bookId == reviews[i].bookId
    ensures RatingSum(BookReviews(reviews[i := y], y.bookId)) ==
            RatingSum(BookReviews(reviews, y.bookId)) - reviews[i].rating + y.rating
  {
    var a, b := reviews[..i], reviews[i + 1..];
    assert reviews == a + [reviews[i]] + b;
    assert reviews[i := y] == a + [y] + b;
    BookReviewsSplice(a, reviews[i], b, y.bookId);
    BookReviewsSplice(a, y, b, y.bookId);
    var pa, pb := BookReviews(a, y.bookId), BookReviews(b, y.bookId);
    RatingSumAppend(pa, [reviews[i]]);
    RatingSumAppend(pa + [reviews[i]], pb);
    RatingSumAppend(pa, [y]);
    RatingSumAppend(pa + [y], pb);
    assert RatingSum([y]) == y.rating;
    assert RatingSum([reviews[i]]) == reviews[i].rating;
  }

  /**
   * `Review.get_average_rating` before rounding: 0 for a book without
   * reviews, otherwise the mean of its ratings, as an exact fraction.
   */
  function AverageRating(reviews: seq<Review>, bookId: nat): (avg: real)
    ensures ReviewCount(reviews, bookId) == 0 ==> avg == 0.0
    ensures ReviewCount(reviews, bookId) > 0 ==>
            avg * ReviewCount(reviews, bookId) as real == RatingSum(BookReviews(reviews, bookId)) as real
  {
    var rs := BookReviews(reviews, bookId);
    if |rs| == 0 then 0.0 else RatingSum(rs) as real / |rs| as real
  }

  /** A total between once and five times a positive count has a mean between 1 and 5. */
  lemma MeanBounds(total: real, count: real)
    requires count > 0.0 && count <= total && total <= 5.0 * count
    ensures 1.0 <= total / count <= 5.0
  {
  }

  /** When every stored rating is between 1 and 5, so is a reviewed book's average. */
  lemma AverageRatingInRange(reviews: seq<Review>, bookId: nat)
    requires forall i :: 0 <= i < |reviews| ==> 1 <= reviews[i].rating <= 5
    requires ReviewCount(reviews, bookId) > 0
    ensures 1.0 <= AverageRating(reviews, bookId) <= 5.0
  {
    var rs := BookReviews(reviews, bookId);
    forall i | 0 <= i < |rs| ensures 1 <= rs[i].rating <= 5 {
      FilterMembers(reviews, OfReviewedBook(bookId), rs[i]);
      assert rs[i] in reviews;
    }
    RatingSumBounds(rs);
    MeanBounds(RatingSum(rs) as real, |rs| as real);
  }
}
