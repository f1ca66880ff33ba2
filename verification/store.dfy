/** The data layer the lending engine calls (`get_book_by_id`,
    `insert_book`, `update_book_availability`, ...), as an in-memory store,
    and the invariants the engine keeps over it. Every write takes a flag
    saying whether the underlying write fails, so that the engine's
    two-step updates can be followed when the second step fails. */
module Store {
  import opened Domain
  import opened Text
  import opened Ledger

  /** A catalogue entry as add_book_to_catalog admits it: trimmed, non-empty
      title and author within their limits, a 13-character ISBN and a
      positive number of copies. */
  predicate EntryOk(b: Book) {
    && Trimmed(b.title) && 0 < |b.title| <= MaxTitleLength
    && Trimmed(b.author) && 0 < |b.author| <= MaxAuthorLength
    && |b.isbn| == IsbnLength
    && b.totalCopies > 0
  }

  /** get_book_by_isbn finds a book. */
  predicate IsbnIn(books: map<int, Book>, isbn: string) {
    exists k :: k in books && books[k].isbn == isbn
  }

  /** What the engine keeps true of the store whatever the data layer does:
      admitted entries under their own ids with unique ISBNs, availability
      never negative, every record for a catalogued book and due 14 days after
      it was made, and each patron with at most 5 outstanding loans, no two for
      the same book. */
  ghost predicate Sound(books: map<int, Book>, loans: seq<Loan>) {
    EntriesOk(books) && IsbnUnique(books) && LoansRefer(books, loans) && WithinLimits(loans)
  }

  /** Every entry is admitted, sits under its own id and has no negative availability. */
  predicate EntriesOk(books: map<int, Book>) {
    forall k :: k in books ==> books[k].id == k && EntryOk(books[k]) && books[k].availableCopies >= 0
  }

  /** No two entries share an ISBN. */
  predicate IsbnUnique(books: map<int, Book>) {
    forall k1, k2 :: k1 in books && k2 in books && books[k1].isbn == books[k2].isbn ==> k1 == k2
  }

  /** Every record is for a catalogued book and due 14 days after it was made. */
  predicate LoansRefer(books: map<int, Book>, loans: seq<Loan>) {
    forall l :: l in loans ==> l.bookId in books && l.dueDay == l.borrowDay + LoanPeriodDays
  }

  /** Each patron holds at most 5 outstanding loans, no two for the same book. */
  ghost predicate WithinLimits(loans: seq<Loan>) {
    forall p :: PatronWithinLimits(loans, p)
  }

  /** Patron `p` holds at most 5 outstanding loans, no two for the same book. */
  predicate PatronWithinLimits(loans: seq<Loan>, p: string) {
    |Borrowed(loans, p)| <= MaxOpenLoans && DistinctBooks(Borrowed(loans, p))
  }

  /** Availability agrees with the records: every copy of a book is either
      available or out on an outstanding loan. A borrow or return whose second
      write fails breaks this, because the two writes are not atomic. */
  ghost predicate Balanced(books: map<int, Book>, loans: seq<Loan>) {
    forall k :: k in books ==> books[k].availableCopies + OnLoan(loans, k) == books[k].totalCopies
  }

  /** In a sound, balanced store no book has more copies available than it
      has copies, nor fewer than none. */
  lemma AvailabilityWithinStock(books: map<int, Book>, loans: seq<Loan>, k: int)
    requires Sound(books, loans) && Balanced(books, loans) && k in books
    ensures 0 <= books[k].availableCopies <= books[k].totalCopies
    ensures OnLoan(loans, k) <= books[k].totalCopies
  {
  }

  /** update_book_availability(book_id, delta): no change for an unknown id. */
  function Adjusted(books: map<int, Book>, b: int, delta: int): (r: map<int, Book>)
    ensures r.Keys == books.Keys
  {
    if b in books then books[b := books[b].(availableCopies := books[b].availableCopies + delta)] else books
  }

  class Library {
    var books: map<int, Book>
    var nextId: int
    var loans: seq<Loan>

    /** Book ids are assigned 1, 2, 3, ... and each entry carries its own id. */
    ghost predicate Valid()
      reads this
    {
      && nextId >= 1
      && (forall k :: k in books <==> 1 <= k < nextId)
    }

    constructor ()
      ensures Valid() && books == map[] && loans == [] && nextId == 1
      ensures Sound(books, loans) && Balanced(books, loans)
    {
      books, nextId, loans := map[], 1, [];
    }

    /** get_book_by_id: the entry under the id, or None for an unknown id. */
    function BookById(id: int): (r: Option<Book>)
      reads this
      ensures r.Some? <==> id in books
      ensures r.Some? ==> r.value == books[id]
      ensures r.Some? && EntriesOk(books) ==> r.value.id == id
    {
      if id in books then Some(books[id]) else None
    }

    /** get_book_by_isbn, as a test for presence. */
    predicate IsbnTaken(isbn: string)
      reads this
    {
      IsbnIn(books, isbn)
    }

    /** get_all_books: the catalogue in id order. */
    function AllBooks(): (r: seq<Book>)
      reads this
      requires Valid()
      ensures |r| == nextId - 1
      ensures forall i :: 0 <= i < |r| ==> r[i] == books[i + 1]
    {
      var b, n := books, nextId - 1;
      seq(n, i requires 0 <= i < n && i + 1 in b => b[i + 1])
    }

    /** get_patron_borrowed_books */
    function BorrowedBooks(p: string): seq<Loan>
      reads this
    {
      Borrowed(loans, p)
    }

    /** get_patron_borrow_count */
    function BorrowCount(p: string): nat
      reads this
    {
      |Borrowed(loans, p)|
    }

    /** get_patron_borrowing_history */
    function BorrowingHistory(p: string): seq<Loan>
      reads this
    {
      History(loans, p)
    }

    /** insert_book: the new entry gets the next id. */
    method InsertBook(title: string, author: string, isbn: string, total: int, available: int, fails: bool)
      returns (ok: bool)
      requires Valid()
      modifies this
      ensures Valid() && ok == !fails && loans == old(loans)
      ensures ok ==> books == old(books)[old(nextId) := Book(old(nextId), title, author, isbn, total, available)]
                     && nextId == old(nextId) + 1
      ensures !ok ==> books == old(books) && nextId == old(nextId)
    {
      ok := !fails;
      if ok {
        books := books[nextId := Book(nextId, title, author, isbn, total, available)];
        nextId := nextId + 1;
      }
    }

    /** insert_borrow_record */
    method InsertBorrowRecord(p: string, b: int, borrowDay: int, dueDay: int, fails: bool) returns (ok: bool)
      requires Valid()
      modifies this
      ensures Valid() && ok == !fails && books == old(books) && nextId == old(nextId)
      ensures loans == if ok then old(loans) + [Loan(p, b, borrowDay, dueDay, None)] else old(loans)
    {
      ok := !fails;
      if ok {
        loans := loans + [Loan(p, b, borrowDay, dueDay, None)];
      }
    }

    /** update_book_availability */
    method UpdateBookAvailability(b: int, delta: int, fails: bool) returns (ok: bool)
      requires Valid()
      modifies this
      ensures Valid() && ok == !fails && loans == old(loans) && nextId == old(nextId)
      ensures books == if ok then Adjusted(old(books), b, delta) else old(books)
    {
      ok := !fails;
      if ok {
        books := Adjusted(books, b, delta);
      }
    }

    /** update_borrow_record_return_date: stamps the outstanding record of (p, b). */
    method UpdateReturnDate(p: string, b: int, day: int, fails: bool) returns (ok: bool)
      requires Valid()
      modifies this
      ensures Valid() && ok == !fails && books == old(books) && nextId == old(nextId)
      ensures loans == if ok then CloseFirst(old(loans), p, b, day) else old(loans)
    {
      ok := !fails;
      if ok {
        loans := CloseFirst(loans, p, b, day);
      }
    }
  }
}
