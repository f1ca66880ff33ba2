/** calculate_late_fee_for_book: find the patron's outstanding record of the
    book and quote its late fee on `today`. Both copies of the engine share
    this code except for the fee reported when nothing is found. */
module FeeCalculator {
  import opened Domain
  import opened Text
  import opened Ledger
  import opened Store
  import opened Fees

  /** Which copy of the engine: the one under services/ reports a fee of 0.00
      when the id, the book or the record is not found, the older copy None. */
  datatype Copy = ServicesCopy | LegacyCopy

  /** The fee of a not-found quote. */
  function Sentinel(copy: Copy): (r: Option<int>)
    ensures r == Some(0) <==> copy == ServicesCopy
    ensures r == None <==> copy == LegacyCopy
  {
    match copy
    case ServicesCopy => Some(0)
    case LegacyCopy => None
  }

  /** The quote calculate_late_fee_for_book returns, or the exception it raises. */
  function QuoteFor(books: map<int, Book>, loans: seq<Loan>, p: string, b: int, today: int, copy: Copy)
    : (r: Completion<FeeQuote>)
    ensures !ValidPatronId(p) ==> r == Normal(FeeQuote(Sentinel(copy), None, NotFound(InvalidPatronId)))
    ensures ValidPatronId(p) && b !in books ==> r == Normal(FeeQuote(Sentinel(copy), None, NotFound(BookNotFound)))
    ensures ValidPatronId(p) && b in books && (forall l :: l in loans ==> !IsOpenLoanOf(l, p, b)) ==>
              r == Normal(FeeQuote(Sentinel(copy), None, NotFound(RecordNotFound)))
    ensures copy == ServicesCopy && r.Normal? ==> r.value.feeCents.Some?
  {
    if !ValidPatronId(p) then Normal(FeeQuote(Sentinel(copy), None, NotFound(InvalidPatronId)))
    else if b !in books then Normal(FeeQuote(Sentinel(copy), None, NotFound(BookNotFound)))
    else match FirstWithBook(Borrowed(loans, p), b)
      case None => Normal(FeeQuote(Sentinel(copy), None, NotFound(RecordNotFound)))
      case Some(l) => Tier(today - l.dueDay)
  }

  /** A quote names a number of days overdue, or raises, exactly when the
      patron holds the book. */
  lemma QuoteFoundIff(books: map<int, Book>, loans: seq<Loan>, p: string, b: int, today: int, copy: Copy)
    ensures var r := QuoteFor(books, loans, p, b, today, copy);
            (r.Abrupt? || r.value.daysOverdue.Some?) <==>
              ValidPatronId(p) && b in books && exists l :: l in loans && IsOpenLoanOf(l, p, b)
  {
    OpenLoanLookup(loans, p, b);
  }

  /** A found record is quoted by its own number of days overdue. */
  lemma QuoteOfFound(books: map<int, Book>, loans: seq<Loan>, p: string, b: int, today: int, copy: Copy, l: Loan)
    requires ValidPatronId(p) && b in books && FirstWithBook(Borrowed(loans, p), b) == Some(l)
    ensures QuoteFor(books, loans, p, b, today, copy) == Tier(today - l.dueDay)
  {
  }

  /** When every patron holds at most one outstanding record per book, the
      quote for the book of the patron's i-th outstanding record is that
      record's tiered fee, whichever copy of the engine computes it. */
  lemma QuoteOfOutstanding(books: map<int, Book>, loans: seq<Loan>, p: string, i: nat, today: int, copy: Copy)
    requires WithinLimits(loans) && LoansRefer(books, loans) && ValidPatronId(p)
    requires i < |Borrowed(loans, p)|
    ensures QuoteFor(books, loans, p, Borrowed(loans, p)[i].bookId, today, copy)
            == Tier(today - Borrowed(loans, p)[i].dueDay)
  {
    var rs := Borrowed(loans, p);
    assert PatronWithinLimits(loans, p) && rs[i] in rs;
    FirstWithBookOfDistinct(rs, i);
    QuoteOfFound(books, loans, p, rs[i].bookId, today, copy, rs[i]);
  }

  /** The same for an outstanding record named by value. */
  lemma QuoteOfOpenLoan(books: map<int, Book>, loans: seq<Loan>, l: Loan, today: int, copy: Copy)
    requires WithinLimits(loans) && LoansRefer(books, loans)
    requires l in loans && l.Open() && ValidPatronId(l.patronId)
    ensures QuoteFor(books, loans, l.patronId, l.bookId, today, copy) == Tier(today - l.dueDay)
  {
    var rs := Borrowed(loans, l.patronId);
    assert l in rs && PatronWithinLimits(loans, l.patronId);
    var k :| 0 <= k < |rs| && rs[k] == l;
    FirstWithBookOfDistinct(rs, k);
    QuoteOfFound(books, loans, l.patronId, l.bookId, today, copy, l);
  }

  /** Up to the due date a loan owes nothing: a fresh loan is "Not overdue"
      with fee 0 for its first 14 days. */
  lemma NothingOwedUntilDue(books: map<int, Book>, loans: seq<Loan>, l: Loan, today: int, copy: Copy)
    requires Sound(books, loans)
    requires l in loans && l.Open() && ValidPatronId(l.patronId) && today <= l.borrowDay + LoanPeriodDays
    ensures QuoteFor(books, loans, l.patronId, l.bookId, today, copy) == Normal(FeeQuote(Some(0), Some(0), NotOverdue))
  {
    QuoteOfOpenLoan(books, loans, l, today, copy);
  }

  /** The two copies agree on every found record and on every exception; on a
      not-found quote they differ in the fee alone. */
  lemma CopiesDifferOnlyInSentinel(books: map<int, Book>, loans: seq<Loan>, p: string, b: int, today: int)
    ensures var s, o := QuoteFor(books, loans, p, b, today, ServicesCopy), QuoteFor(books, loans, p, b, today, LegacyCopy);
            if s.Normal? && s.value.daysOverdue.None? then
              o.Normal? && o.value == s.value.(feeCents := None) && s.value.feeCents == Some(0)
            else o == s
  {
  }

  /** calculate_late_fee_for_book. It only reads the store. */
  method CalculateLateFee(db: Library, p: string, b: int, today: int, copy: Copy) returns (r: Completion<FeeQuote>)
    ensures r == QuoteFor(db.books, db.loans, p, b, today, copy)
  {
    if !ValidPatronId(p) {
      return Normal(FeeQuote(Sentinel(copy), None, NotFound(InvalidPatronId)));
    }
    var book := db.BookById(b);
    if book.None? {
      return Normal(FeeQuote(Sentinel(copy), None, NotFound(BookNotFound)));
    }
    var borrowed := db.BorrowedBooks(p);
    var record: Option<Loan> := None;
    var i := 0;
    while i < |borrowed|
      invariant 0 <= i <= |borrowed|
      invariant forall j :: 0 <= j < i ==> borrowed[j].bookId != b
      invariant record.None?
    {
      if borrowed[i].bookId == b {
        record := Some(borrowed[i]);
        break;
      }
      i := i + 1;
    }
    if record.None? {
      assert forall l :: l in borrowed ==> l.bookId != b;
      return Normal(FeeQuote(Sentinel(copy), None, NotFound(RecordNotFound)));
    }
    FirstWithBookAt(borrowed, b, i);
    QuoteOfFound(db.books, db.loans, p, b, today, copy, record.value);
    r := Tier(today - record.value.dueDay);
  }
}
