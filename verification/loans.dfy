/** borrow_book_by_patron and return_book_by_patron: guards on the patron id,
    the book, availability, the five-loan limit and one outstanding loan per
    (patron, book), then two store writes that are not atomic. */
module LoanManager {
  import opened Domain
  import opened Text
  import opened Ledger
  import opened Store

  /** Why a borrow is refused before anything is written, if it is; the
      checks in the order the source runs them. */
  function BorrowGuard(books: map<int, Book>, loans: seq<Loan>, p: string, b: int): (r: Option<Message>)
    ensures r.None? <==>
              && ValidPatronId(p) && b in books && books[b].availableCopies > 0
              && |Borrowed(loans, p)| < MaxOpenLoans
              && forall l :: l in loans ==> !IsOpenLoanOf(l, p, b)
  {
    OpenLoanLookup(loans, p, b);
    if !ValidPatronId(p) then Some(InvalidPatronId)
    else if b !in books then Some(BookNotFound)
    else if books[b].availableCopies <= 0 then Some(NotAvailable)
    else if |Borrowed(loans, p)| >= MaxOpenLoans then Some(LimitReached)
    else if FirstWithBook(Borrowed(loans, p), b).Some? then Some(AlreadyBorrowed)
    else None
  }

  /** Why a return is refused before anything is written, if it is. */
  function ReturnGuard(books: map<int, Book>, loans: seq<Loan>, p: string, b: int): (r: Option<Message>)
    ensures r.None? <==> ValidPatronId(p) && b in books && exists l :: l in loans && IsOpenLoanOf(l, p, b)
    ensures r.None? ==> FirstOpenIndex(loans, p, b).Some?
  {
    OpenLoanLookup(loans, p, b);
    if !ValidPatronId(p) then Some(InvalidPatronId)
    else if b !in books then Some(BookNotFound)
    else if FirstWithBook(Borrowed(loans, p), b).None? then Some(NotBorrowed)
    else None
  }

  /** The title in the borrow success message. The scan over the patron's
      outstanding records rebinds `book`, so once the scan has run the title
      is that of the book of the patron's last outstanding record. */
  function ShownTitle(books: map<int, Book>, loans: seq<Loan>, p: string, b: int): (r: string)
    requires b in books && LoansRefer(books, loans)
    ensures exists k :: k in books && r == books[k].title
  {
    var rs := Borrowed(loans, p);
    if rs == [] then books[b].title
    else assert rs[|rs| - 1] in rs; books[rs[|rs| - 1].bookId].title
  }

  /** The success message shows the borrowed book's own title exactly when the
      patron had nothing outstanding; otherwise it shows the title of a
      different book the patron already holds. */
  lemma ShownTitleOfOtherBook(books: map<int, Book>, loans: seq<Loan>, p: string, b: int)
    requires LoansRefer(books, loans) && BorrowGuard(books, loans, p, b).None?
    ensures Borrowed(loans, p) == [] ==> ShownTitle(books, loans, p, b) == books[b].title
    ensures Borrowed(loans, p) != [] ==>
              exists l :: l in loans && l.patronId == p && l.Open() && l.bookId != b
                          && l.bookId in books && ShownTitle(books, loans, p, b) == books[l.bookId].title
  {
    var rs := Borrowed(loans, p);
    if rs != [] {
      var l := rs[|rs| - 1];
      assert l in rs;
    }
  }

  /** Changing one book's availability by `delta`, staying non-negative,
      keeps every entry admitted, the ISBNs unique and the records' books
      catalogued. */
  lemma AdjustKeepsEntries(books: map<int, Book>, loans: seq<Loan>, b: int, delta: int)
    requires EntriesOk(books) && IsbnUnique(books) && LoansRefer(books, loans)
    requires b in books ==> books[b].availableCopies + delta >= 0
    ensures EntriesOk(Adjusted(books, b, delta)) && IsbnUnique(Adjusted(books, b, delta))
    ensures LoansRefer(Adjusted(books, b, delta), loans)
  {
    var nb := Adjusted(books, b, delta);
    assert forall k :: k in nb ==> nb[k].isbn == books[k].isbn && nb[k].id == books[k].id
                                   && nb[k].title == books[k].title && nb[k].author == books[k].author
                                   && nb[k].totalCopies == books[k].totalCopies;
  }

  /** A new outstanding record for a book the patron does not hold, made while
      the patron holds fewer than five, keeps every patron within the limits. */
  lemma LendKeepsLimits(loans: seq<Loan>, p: string, b: int, today: int)
    requires WithinLimits(loans) && |Borrowed(loans, p)| < MaxOpenLoans
    requires forall l :: l in loans ==> !IsOpenLoanOf(l, p, b)
    ensures WithinLimits(loans + [NewLoan(p, b, today)])
  {
    var x := NewLoan(p, b, today);
    forall q ensures PatronWithinLimits(loans + [x], q) {
      AppendRecord(loans, x, q, b);
      assert PatronWithinLimits(loans, q);
      if q == p {
        assert |Borrowed(loans, q)| <= MaxOpenLoans;
        DistinctAppend(Borrowed(loans, q), x);
      }
    }
  }

  /** Lending keeps the store sound: the new record refers to a catalogued
      book, is the patron's only outstanding one for that book, and brings
      the patron to at most five. */
  lemma LendKeepsSound(books: map<int, Book>, loans: seq<Loan>, p: string, b: int, today: int)
    requires Sound(books, loans) && BorrowGuard(books, loans, p, b).None?
    ensures Sound(books, loans + [NewLoan(p, b, today)])
    ensures Sound(Adjusted(books, b, -1), loans + [NewLoan(p, b, today)])
  {
    var n := loans + [NewLoan(p, b, today)];
    LendKeepsLimits(loans, p, b, today);
    assert LoansRefer(books, n);
    AdjustKeepsEntries(books, n, b, -1);
  }

  /** When both writes succeed, the copy lent is no longer available. */
  lemma LendKeepsBalanced(books: map<int, Book>, loans: seq<Loan>, p: string, b: int, today: int)
    requires Balanced(books, loans) && b in books
    ensures Balanced(Adjusted(books, b, -1), loans + [NewLoan(p, b, today)])
  {
    var nb, n := Adjusted(books, b, -1), loans + [NewLoan(p, b, today)];
    forall k | k in nb ensures nb[k].availableCopies + OnLoan(n, k) == nb[k].totalCopies {
      AppendRecord(loans, NewLoan(p, b, today), p, k);
    }
  }

  /** Closing the outstanding record at index i keeps every record's book
      catalogued and every patron within the limits. */
  lemma CloseKeepsRecords(books: map<int, Book>, loans: seq<Loan>, i: nat, day: int)
    requires LoansRefer(books, loans) && WithinLimits(loans)
    requires i < |loans| && loans[i].Open()
    ensures LoansRefer(books, loans[i := Closed(loans[i], day)])
    ensures WithinLimits(loans[i := Closed(loans[i], day)])
  {
    var n := loans[i := Closed(loans[i], day)];
    forall l | l in n ensures l.bookId in books && l.dueDay == l.borrowDay + LoanPeriodDays {
      var j :| 0 <= j < |n| && n[j] == l;
      if j != i {
        assert l == loans[j];
      } else {
        assert loans[i] in loans;
      }
    }
    forall q ensures PatronWithinLimits(n, q) {
      assert PatronWithinLimits(loans, q);
      SplitBorrowed(loans, i, q);
      CloseAtBorrowed(loans, i, day, q);
      var m := if loans[i].patronId == q then [loans[i]] else [];
      DistinctDrop(Borrowed(loans[..i], q), m, Borrowed(loans[i + 1..], q));
    }
  }

  /** Closing the outstanding record of (p, b) keeps the store sound. */
  lemma ReceiveKeepsSound(books: map<int, Book>, loans: seq<Loan>, p: string, b: int, day: int)
    requires Sound(books, loans) && FirstOpenIndex(loans, p, b).Some?
    ensures Sound(books, CloseFirst(loans, p, b, day))
    ensures Sound(Adjusted(books, b, 1), CloseFirst(loans, p, b, day))
  {
    var i := FirstOpenIndex(loans, p, b).value;
    CloseKeepsRecords(books, loans, i, day);
    AdjustKeepsEntries(books, CloseFirst(loans, p, b, day), b, 1);
  }

  /** When both writes succeed, the copy returned is available again. */
  lemma ReceiveKeepsBalanced(books: map<int, Book>, loans: seq<Loan>, p: string, b: int, day: int)
    requires Balanced(books, loans) && FirstOpenIndex(loans, p, b).Some?
    ensures Balanced(Adjusted(books, b, 1), CloseFirst(loans, p, b, day))
  {
    var i := FirstOpenIndex(loans, p, b).value;
    var nb, n := Adjusted(books, b, 1), CloseFirst(loans, p, b, day);
    forall k | k in nb ensures nb[k].availableCopies + OnLoan(n, k) == nb[k].totalCopies {
      CloseAtCounts(loans, i, day, p, k);
    }
  }

  /** Taking a copy out and putting it back leaves the entry as it was. */
  lemma AdjustRoundTrip(books: map<int, Book>, b: int)
    ensures Adjusted(Adjusted(books, b, -1), b, 1) == books
  {
    if b in books {
      assert Adjusted(Adjusted(books, b, -1), b, 1)[b] == books[b];
    }
  }

  /** The record a borrow appends is the one the next return of that book stamps. */
  lemma CloseAppended(loans: seq<Loan>, p: string, b: int, t1: int, t2: int)
    requires forall l :: l in loans ==> !IsOpenLoanOf(l, p, b)
    ensures CloseFirst(loans + [NewLoan(p, b, t1)], p, b, t2) == loans + [Closed(NewLoan(p, b, t1), t2)]
  {
    var x := NewLoan(p, b, t1);
    var lent := loans + [x];
    OpenLoanLookup(loans, p, b);
    FirstOpenAfterAppend(loans, x, p, b);
    assert lent[|loans| := Closed(x, t2)] == loans + [Closed(x, t2)];
  }

  /** A borrow followed by the return of the same book, both fully written,
      leaves the catalogue as it was and the new record closed. */
  lemma BorrowThenReturnRestores(books: map<int, Book>, loans: seq<Loan>, p: string, b: int, t1: int, t2: int)
    requires BorrowGuard(books, loans, p, b).None?
    ensures ReturnGuard(Adjusted(books, b, -1), loans + [NewLoan(p, b, t1)], p, b).None?
    ensures Adjusted(Adjusted(books, b, -1), b, 1) == books
    ensures CloseFirst(loans + [NewLoan(p, b, t1)], p, b, t2) == loans + [Closed(NewLoan(p, b, t1), t2)]
  {
    var lent := loans + [NewLoan(p, b, t1)];
    assert lent[|loans|] in lent;
    AdjustRoundTrip(books, b);
    CloseAppended(loans, p, b, t1, t2);
  }

  /** The checks of borrow_book_by_patron, up to the writes: the refusal, if
      any, and the title the scan leaves bound to `book`. Reads the store only. */
  method CheckBorrow(db: Library, p: string, b: int) returns (refusal: Option<Message>, shown: string)
    requires LoansRefer(db.books, db.loans)
    ensures refusal == BorrowGuard(db.books, db.loans, p, b)
    ensures refusal.None? ==> shown == ShownTitle(db.books, db.loans, p, b)
  {
    shown := "";
    if !ValidPatronId(p) {
      return Some(InvalidPatronId), shown;
    }
    var book := db.BookById(b);
    if book.None? {
      return Some(BookNotFound), shown;
    }
    if book.value.availableCopies <= 0 {
      return Some(NotAvailable), shown;
    }
    if db.BorrowCount(p) >= MaxOpenLoans {
      return Some(LimitReached), shown;
    }
    var borrowed := db.BorrowedBooks(p);
    // `shown` follows the title bound to `book`, which the scan rebinds.
    shown := book.value.title;
    var i := 0;
    while i < |borrowed|
      invariant 0 <= i <= |borrowed|
      invariant forall j :: 0 <= j < i ==> borrowed[j].bookId != b
      invariant i > 0 ==> borrowed[i - 1] in db.loans && shown == db.books[borrowed[i - 1].bookId].title
      invariant i == 0 ==> shown == book.value.title
    {
      assert borrowed[i] in borrowed;
      if borrowed[i].bookId == b {
        return Some(AlreadyBorrowed), shown;
      }
      shown := db.books[borrowed[i].bookId].title;
      i := i + 1;
    }
    assert forall l :: l in borrowed ==> l.bookId != b;
    refusal := None;
  }

  /** The two writes of a borrow the checks admitted: insert the record, then
      take one copy off the shelf. */
  method Lend(db: Library, p: string, b: int, today: int, fault: StoreFault) returns (ok: Option<Message>)
    requires db.Valid() && Sound(db.books, db.loans) && BorrowGuard(db.books, db.loans, p, b).None?
    modifies db
    ensures db.Valid() && Sound(db.books, db.loans) && db.nextId == old(db.nextId)
    ensures old(Balanced(db.books, db.loans)) && fault != SecondWriteFails ==> Balanced(db.books, db.loans)
    ensures fault == FirstWriteFails ==>
              ok == Some(RecordStoreError) && db.books == old(db.books) && db.loans == old(db.loans)
    ensures fault == SecondWriteFails ==>
              ok == Some(AvailabilityStoreError)
              && db.books == old(db.books) && db.loans == old(db.loans) + [NewLoan(p, b, today)]
    ensures fault == NoFault ==>
              ok == None && db.books == Adjusted(old(db.books), b, -1) && db.loans == old(db.loans) + [NewLoan(p, b, today)]
  {
    LendKeepsSound(db.books, db.loans, p, b, today);
    if Balanced(db.books, db.loans) {
      LendKeepsBalanced(db.books, db.loans, p, b, today);
    }
    var done := db.InsertBorrowRecord(p, b, today, today + LoanPeriodDays, fault == FirstWriteFails);
    if !done {
      return Some(RecordStoreError);
    }
    done := db.UpdateBookAvailability(b, -1, fault == SecondWriteFails);
    if !done {
      return Some(AvailabilityStoreError);
    }
    ok := None;
  }

  /** borrow_book_by_patron, with `today` for the clock and `fault` saying
      which of the two writes fails. */
  method BorrowBook(db: Library, p: string, b: int, today: int, fault: StoreFault) returns (r: BorrowReply)
    requires db.Valid() && Sound(db.books, db.loans)
    modifies db
    ensures db.Valid() && Sound(db.books, db.loans) && db.nextId == old(db.nextId)
    ensures old(Balanced(db.books, db.loans)) && fault != SecondWriteFails ==> Balanced(db.books, db.loans)
    ensures BorrowGuard(old(db.books), old(db.loans), p, b).Some? ==>
              r == BorrowRefused(BorrowGuard(old(db.books), old(db.loans), p, b).value)
              && db.books == old(db.books) && db.loans == old(db.loans)
    ensures BorrowGuard(old(db.books), old(db.loans), p, b).None? && fault == FirstWriteFails ==>
              r == BorrowRefused(RecordStoreError) && db.books == old(db.books) && db.loans == old(db.loans)
    ensures BorrowGuard(old(db.books), old(db.loans), p, b).None? && fault == SecondWriteFails ==>
              r == BorrowRefused(AvailabilityStoreError)
              && db.books == old(db.books) && db.loans == old(db.loans) + [NewLoan(p, b, today)]
    ensures BorrowGuard(old(db.books), old(db.loans), p, b).None? && fault == NoFault ==>
              r == Lent(ShownTitle(old(db.books), old(db.loans), p, b), today + LoanPeriodDays)
              && db.books == Adjusted(old(db.books), b, -1) && db.loans == old(db.loans) + [NewLoan(p, b, today)]
  {
    var refusal, shown := CheckBorrow(db, p, b);
    if refusal.Some? {
      return BorrowRefused(refusal.value);
    }
    var failed := Lend(db, p, b, today, fault);
    if failed.Some? {
      return BorrowRefused(failed.value);
    }
    r := Lent(shown, today + LoanPeriodDays);
  }

  /** The checks of return_book_by_patron, up to the writes: the refusal, if
      any, and the title of the record found. Reads the store only. */
  method CheckReturn(db: Library, p: string, b: int) returns (refusal: Option<Message>, shown: string)
    ensures refusal == ReturnGuard(db.books, db.loans, p, b)
    ensures refusal.None? ==> shown == db.books[b].title
  {
    shown := "";
    if !ValidPatronId(p) {
      return Some(InvalidPatronId), shown;
    }
    var book := db.BookById(b);
    if book.None? {
      return Some(BookNotFound), shown;
    }
    var borrowed := db.BorrowedBooks(p);
    var record: Option<Loan> := None;
    var i := 0;
    while i < |borrowed|
      invariant 0 <= i <= |borrowed|
      invariant record.None? ==> forall j :: 0 <= j < i ==> borrowed[j].bookId != b
      invariant record.Some? ==> record.value in borrowed && record.value.bookId == b
    {
      if borrowed[i].bookId == b {
        record := Some(borrowed[i]);
        break;
      }
      i := i + 1;
    }
    if record.None? {
      assert forall l :: l in borrowed ==> l.bookId != b;
      return Some(NotBorrowed), shown;
    }
    // The record found carries the title of its book, which is book b.
    shown := db.books[record.value.bookId].title;
    refusal := None;
  }

  /** The two writes of a return the checks admitted: stamp the record, then
      put the copy back on the shelf. */
  method Receive(db: Library, p: string, b: int, today: int, fault: StoreFault) returns (ok: Option<Message>)
    requires db.Valid() && Sound(db.books, db.loans) && ReturnGuard(db.books, db.loans, p, b).None?
    modifies db
    ensures db.Valid() && Sound(db.books, db.loans) && db.nextId == old(db.nextId)
    ensures old(Balanced(db.books, db.loans)) && fault != SecondWriteFails ==> Balanced(db.books, db.loans)
    ensures fault == FirstWriteFails ==>
              ok == Some(ReturnDateStoreError) && db.books == old(db.books) && db.loans == old(db.loans)
    ensures fault == SecondWriteFails ==>
              ok == Some(AvailabilityStoreError)
              && db.books == old(db.books) && db.loans == CloseFirst(old(db.loans), p, b, today)
    ensures fault == NoFault ==>
              ok == None && db.books == Adjusted(old(db.books), b, 1) && db.loans == CloseFirst(old(db.loans), p, b, today)
  {
    ReceiveKeepsSound(db.books, db.loans, p, b, today);
    if Balanced(db.books, db.loans) {
      ReceiveKeepsBalanced(db.books, db.loans, p, b, today);
    }
    var done := db.UpdateReturnDate(p, b, today, fault == FirstWriteFails);
    if !done {
      return Some(ReturnDateStoreError);
    }
    done := db.UpdateBookAvailability(b, 1, fault == SecondWriteFails);
    if !done {
      return Some(AvailabilityStoreError);
    }
    ok := None;
  }

  /** return_book_by_patron, with `today` for the clock and `fault` saying
      which of the two writes fails. */
  method ReturnBook(db: Library, p: string, b: int, today: int, fault: StoreFault) returns (r: ReturnReply)
    requires db.Valid() && Sound(db.books, db.loans)
    modifies db
    ensures db.Valid() && Sound(db.books, db.loans) && db.nextId == old(db.nextId)
    ensures old(Balanced(db.books, db.loans)) && fault != SecondWriteFails ==> Balanced(db.books, db.loans)
    ensures ReturnGuard(old(db.books), old(db.loans), p, b).Some? ==>
              r == ReturnRefused(ReturnGuard(old(db.books), old(db.loans), p, b).value)
              && db.books == old(db.books) && db.loans == old(db.loans)
    ensures ReturnGuard(old(db.books), old(db.loans), p, b).None? && fault == FirstWriteFails ==>
              r == ReturnRefused(ReturnDateStoreError) && db.books == old(db.books) && db.loans == old(db.loans)
    ensures ReturnGuard(old(db.books), old(db.loans), p, b).None? && fault == SecondWriteFails ==>
              r == ReturnRefused(AvailabilityStoreError)
              && db.books == old(db.books) && db.loans == CloseFirst(old(db.loans), p, b, today)
    ensures ReturnGuard(old(db.books), old(db.loans), p, b).None? && fault == NoFault ==>
              r == Received(old(db.books)[b].title, today)
              && db.books == Adjusted(old(db.books), b, 1) && db.loans == CloseFirst(old(db.loans), p, b, today)
  {
    var refusal, shown := CheckReturn(db, p, b);
    if refusal.Some? {
      return ReturnRefused(refusal.value);
    }
    var failed := Receive(db, p, b, today, fault);
    if failed.Some? {
      return ReturnRefused(failed.value);
    }
    r := Received(shown, today);
  }
}
