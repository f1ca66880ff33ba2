/** get_patron_status_report: sum the late fees of the patron's outstanding
    loans that are "Overdue" and gather the patron's records. */
module StatusReporter {
  import opened Domain
  import opened Text
  import opened Ledger
  import opened Store
  import opened Fees
  import opened FeeCalculator

  /** The report dictionary; the total is in cents. */
  datatype Report = Report(patronId: string, currentlyBorrowed: seq<Loan>, totalLateFeesCents: int,
                           borrowingHistory: seq<Loan>)

  /** What one quote adds to the total: its fee when its status is "Overdue",
      nothing otherwise; a raising quote raises. */
  function Charge(q: Completion<FeeQuote>): (r: Completion<int>)
    ensures r.Abrupt? <==> q.Abrupt?
    ensures r.Normal? && q.value.status != Overdue ==> r.value == 0
  {
    match q
    case Abrupt(e) => Abrupt(e)
    case Normal(f) =>
      if f.status == Overdue then
        (match f.feeCents case Some(c) => Normal(c) case None => Normal(0))
      else Normal(0)
  }

  /** The quotes the loop obtains, one per outstanding record. */
  function Quotes(books: map<int, Book>, loans: seq<Loan>, p: string, rs: seq<Loan>, today: int, copy: Copy)
    : (qs: seq<Completion<FeeQuote>>)
    ensures |qs| == |rs|
  {
    if rs == [] then []
    else Quotes(books, loans, p, rs[..|rs| - 1], today, copy) + [QuoteFor(books, loans, p, rs[|rs| - 1].bookId, today, copy)]
  }

  /** The i-th quote is the quote for the i-th record's book. */
  lemma {:induction false} QuotesAt(books: map<int, Book>, loans: seq<Loan>, p: string, rs: seq<Loan>, today: int, copy: Copy, i: nat)
    requires i < |rs|
    ensures Quotes(books, loans, p, rs, today, copy)[i] == QuoteFor(books, loans, p, rs[i].bookId, today, copy)
  {
    var front := rs[..|rs| - 1];
    if i < |front| {
      QuotesAt(books, loans, p, front, today, copy, i);
      assert rs[i] == front[i];
    }
  }

  /** The running total after the loop has used the quotes `qs`: the first
      raising quote ends the loop. */
  function TotalOf(qs: seq<Completion<FeeQuote>>): (r: Completion<int>)
    ensures r.Normal? ==> forall i :: 0 <= i < |qs| ==> qs[i].Normal?
  {
    if qs == [] then Normal(0)
    else match TotalOf(qs[..|qs| - 1])
      case Abrupt(e) => Abrupt(e)
      case Normal(t) =>
        match Charge(qs[|qs| - 1])
        case Abrupt(e) => Abrupt(e)
        case Normal(c) => Normal(t + c)
  }

  /** The report get_patron_status_report returns (None for a malformed id or
      an empty outstanding list or history), or the exception it raises. */
  function ReportFor(books: map<int, Book>, loans: seq<Loan>, p: string, today: int, copy: Copy)
    : (r: Completion<Option<Report>>)
    ensures !ValidPatronId(p) ==> r == Normal(None)
    ensures r.Normal? && r.value.Some? ==>
              && r.value.value.patronId == p
              && r.value.value.currentlyBorrowed == Borrowed(loans, p) != []
              && r.value.value.borrowingHistory == History(loans, p) != []
  {
    if !ValidPatronId(p) then Normal(None)
    else
      var current := Borrowed(loans, p);
      match TotalOf(Quotes(books, loans, p, current, today, copy))
      case Abrupt(e) => Abrupt(e)
      case Normal(total) =>
        var history := History(loans, p);
        if current == [] || history == [] then Normal(None)
        else Normal(Some(Report(p, current, total, history)))
  }

  /** Reference: what a record owes on `today` by the day-by-day schedule
      (nothing before a full week overdue), capped per book. */
  function OwedOn(l: Loan, today: int): (c: int)
    ensures 0 <= c <= FeeCap
  {
    var d := today - l.dueDay;
    if d >= 7 then Min(Accrued(d), FeeCap) else 0
  }

  /** Reference: the sum of OwedOn over the records. */
  function SumOwed(rs: seq<Loan>, today: int): (c: int)
    ensures 0 <= c <= FeeCap * |rs|
  {
    if rs == [] then 0 else SumOwed(rs[..|rs| - 1], today) + OwedOn(rs[|rs| - 1], today)
  }

  /** A record between one and six days overdue makes the fee code raise. */
  predicate RaisesOn(l: Loan, today: int) {
    1 <= today - l.dueDay <= 6
  }

  /** Each record's own tiered fee quote. */
  function TierQuotes(rs: seq<Loan>, today: int): (qs: seq<Completion<FeeQuote>>)
    ensures |qs| == |rs|
  {
    if rs == [] then [] else TierQuotes(rs[..|rs| - 1], today) + [Tier(today - rs[|rs| - 1].dueDay)]
  }

  /** Some record is one to six days overdue. */
  predicate AnyRaises(rs: seq<Loan>, today: int) {
    rs != [] && (AnyRaises(rs[..|rs| - 1], today) || RaisesOn(rs[|rs| - 1], today))
  }

  lemma {:induction false} AnyRaisesIff(rs: seq<Loan>, today: int)
    ensures AnyRaises(rs, today) <==> exists x :: x in rs && RaisesOn(x, today)
  {
    if rs != [] {
      var front := rs[..|rs| - 1];
      AnyRaisesIff(front, today);
      assert rs == front + [rs[|rs| - 1]];
    }
  }

  /** Adding one quote to the loop's total. */
  lemma TotalOfSnoc(qs: seq<Completion<FeeQuote>>, q: Completion<FeeQuote>)
    ensures TotalOf(qs + [q]) == match TotalOf(qs)
                                 case Abrupt(e) => Abrupt(e)
                                 case Normal(t) => (match Charge(q) case Abrupt(e) => Abrupt(e) case Normal(c) => Normal(t + c))
  {
    assert (qs + [q])[..|qs|] == qs;
  }

  /** Totalling the records' own tiered quotes raises exactly when some record
      is one to six days overdue. */
  lemma {:induction false} TotalOfTiersRaises(rs: seq<Loan>, today: int)
    ensures TotalOf(TierQuotes(rs, today)).Abrupt? <==> AnyRaises(rs, today)
  {
    if rs != [] {
      var front, last := rs[..|rs| - 1], rs[|rs| - 1];
      TotalOfTiersRaises(front, today);
      TotalOfSnoc(TierQuotes(front, today), Tier(today - last.dueDay));
    }
  }

  /** When it does not raise, the total of the records' own tiered quotes is
      what the records owe by the day-by-day schedule. */
  lemma {:induction false} TotalOfTiersValue(rs: seq<Loan>, today: int)
    ensures TotalOf(TierQuotes(rs, today)).Normal? ==> TotalOf(TierQuotes(rs, today)).value == SumOwed(rs, today)
  {
    if rs != [] {
      var front, last := rs[..|rs| - 1], rs[|rs| - 1];
      TotalOfTiersValue(front, today);
      TotalOfSnoc(TierQuotes(front, today), Tier(today - last.dueDay));
      var d := today - last.dueDay;
      if d >= 7 {
        TierFollowsSchedule(d);
      }
    }
  }

  /** The i-th tiered quote is the i-th record's own tier. */
  lemma {:induction false} TierQuotesAt(rs: seq<Loan>, today: int, i: nat)
    requires i < |rs|
    ensures TierQuotes(rs, today)[i] == Tier(today - rs[i].dueDay)
  {
    var front := rs[..|rs| - 1];
    if i < |front| {
      TierQuotesAt(front, today, i);
      assert rs[i] == front[i];
    }
  }

  /** In a sound store the loop's quotes are the outstanding records' own
      tiered quotes. */
  lemma OutstandingQuotes(books: map<int, Book>, loans: seq<Loan>, p: string, today: int, copy: Copy)
    requires WithinLimits(loans) && LoansRefer(books, loans) && ValidPatronId(p)
    ensures Quotes(books, loans, p, Borrowed(loans, p), today, copy) == TierQuotes(Borrowed(loans, p), today)
  {
    var rs := Borrowed(loans, p);
    forall j | 0 <= j < |rs|
      ensures QuoteFor(books, loans, p, rs[j].bookId, today, copy) == Tier(today - rs[j].dueDay)
    {
      QuoteOfOutstanding(books, loans, p, j, today, copy);
    }
    QuotesMatchTiers(books, loans, p, rs, today, copy);
  }

  /** When the quote for each record's book is that record's tiered quote,
      the loop's quotes are the records' tiered quotes. */
  lemma {:induction false} QuotesMatchTiers(books: map<int, Book>, loans: seq<Loan>, p: string, rs: seq<Loan>,
                                            today: int, copy: Copy)
    requires forall j :: 0 <= j < |rs| ==>
               QuoteFor(books, loans, p, rs[j].bookId, today, copy) == Tier(today - rs[j].dueDay)
    ensures Quotes(books, loans, p, rs, today, copy) == TierQuotes(rs, today)
  {
    if rs != [] {
      var front := rs[..|rs| - 1];
      assert forall j :: 0 <= j < |front| ==> front[j] == rs[j];
      QuotesMatchTiers(books, loans, p, front, today, copy);
    }
  }

  /** In a sound store the loop's total over a well-formed patron's
      outstanding records is the total of their own tiered quotes. */
  lemma OutstandingTotal(books: map<int, Book>, loans: seq<Loan>, p: string, today: int, copy: Copy)
    requires WithinLimits(loans) && LoansRefer(books, loans) && ValidPatronId(p)
    ensures TotalOf(Quotes(books, loans, p, Borrowed(loans, p), today, copy)) == TotalOf(TierQuotes(Borrowed(loans, p), today))
  {
    OutstandingQuotes(books, loans, p, today, copy);
  }

  /** In a sound store the report raises exactly when the patron has an
      outstanding loan one to six days overdue. */
  lemma ReportRaises(books: map<int, Book>, loans: seq<Loan>, p: string, today: int, copy: Copy)
    requires WithinLimits(loans) && LoansRefer(books, loans)
    ensures ReportFor(books, loans, p, today, copy).Abrupt? <==>
              ValidPatronId(p) && exists l :: l in loans && l.patronId == p && l.Open() && RaisesOn(l, today)
  {
    if ValidPatronId(p) {
      var current := Borrowed(loans, p);
      OutstandingTotal(books, loans, p, today, copy);
      TotalOfTiersRaises(current, today);
      AnyRaisesIff(current, today);
    }
  }

  /** In a sound store the report is None exactly for a malformed id or a
      patron with nothing outstanding. */
  lemma ReportAbsent(books: map<int, Book>, loans: seq<Loan>, p: string, today: int, copy: Copy)
    requires WithinLimits(loans) && LoansRefer(books, loans)
    ensures ReportFor(books, loans, p, today, copy) == Normal(None) <==>
              !ValidPatronId(p) || forall l :: l in loans && l.patronId == p ==> !l.Open()
  {
    if ValidPatronId(p) {
      var current := Borrowed(loans, p);
      OutstandingTotal(books, loans, p, today, copy);
      if current != [] {
        assert current[0] in current;
        assert current[0] in History(loans, p);
      } else {
        assert forall l :: l in loans && l.patronId == p ==> l !in current;
      }
    }
  }

  /** In a sound store a report lists the patron's outstanding records and
      full history, and its total is what the outstanding loans owe by the
      day-by-day schedule. */
  lemma ReportValue(books: map<int, Book>, loans: seq<Loan>, p: string, today: int, copy: Copy)
    requires WithinLimits(loans) && LoansRefer(books, loans)
    ensures ReportFor(books, loans, p, today, copy).Normal? && ReportFor(books, loans, p, today, copy).value.Some? ==>
              var rep := ReportFor(books, loans, p, today, copy).value.value;
              && rep.patronId == p
              && rep.currentlyBorrowed == Borrowed(loans, p)
              && rep.borrowingHistory == History(loans, p)
              && rep.totalLateFeesCents == SumOwed(Borrowed(loans, p), today)
  {
    if ValidPatronId(p) {
      OutstandingTotal(books, loans, p, today, copy);
      TotalOfTiersValue(Borrowed(loans, p), today);
    }
  }

  /** A report's total is at most 5 x 15.00, since the patron holds at most
      five outstanding loans. */
  lemma ReportTotalBounded(books: map<int, Book>, loans: seq<Loan>, p: string, today: int, copy: Copy)
    requires WithinLimits(loans) && LoansRefer(books, loans)
    ensures ReportFor(books, loans, p, today, copy).Normal? && ReportFor(books, loans, p, today, copy).value.Some? ==>
              0 <= ReportFor(books, loans, p, today, copy).value.value.totalLateFeesCents <= MaxOpenLoans * FeeCap
  {
    ReportValue(books, loans, p, today, copy);
    var current := Borrowed(loans, p);
    assert PatronWithinLimits(loans, p);
    var n := |current|;
    assert n <= 5 && FeeCap == 1500 && MaxOpenLoans == 5;
    assert 0 <= SumOwed(current, today) <= FeeCap * n <= 1500 * 5;
  }

  /** get_patron_status_report. It only reads the store. */
  method PatronStatusReport(db: Library, p: string, today: int, copy: Copy) returns (r: Completion<Option<Report>>)
    ensures r == ReportFor(db.books, db.loans, p, today, copy)
  {
    if !ValidPatronId(p) {
      return Normal(None);
    }
    var current := db.BorrowedBooks(p);
    ghost var qs := Quotes(db.books, db.loans, p, current, today, copy);
    var total := 0;
    var i := 0;
    while i < |current|
      invariant 0 <= i <= |current|
      invariant TotalOf(qs[..i]) == Normal(total)
    {
      var quote := CalculateLateFee(db, p, current[i].bookId, today, copy);
      QuotesAt(db.books, db.loans, p, current, today, copy, i);
      LoopStep(qs, i, total);
      match quote
      case Abrupt(e) =>
        return Abrupt(e);
      case Normal(f) =>
        if f.status == Overdue {
          match f.feeCents
          case Some(c) => total := total + c;
          case None =>
        }
      i := i + 1;
    }
    assert qs[..i] == qs;
    var history := db.BorrowingHistory(p);
    if current == [] || history == [] {
      return Normal(None);
    }
    r := Normal(Some(Report(p, current, total, history)));
  }

  /** One more quote of the loop. */
  lemma TotalOfPrefix(qs: seq<Completion<FeeQuote>>, i: nat)
    requires i < |qs|
    ensures TotalOf(qs[..i + 1]) == match TotalOf(qs[..i])
                                    case Abrupt(e) => Abrupt(e)
                                    case Normal(t) => (match Charge(qs[i]) case Abrupt(e) => Abrupt(e) case Normal(c) => Normal(t + c))
  {
    assert qs[..i + 1][..i] == qs[..i];
  }

  /** One iteration of the loop: a raising quote is what the whole loop
      raises; otherwise the total grows by the quote's charge. */
  lemma LoopStep(qs: seq<Completion<FeeQuote>>, i: nat, total: int)
    requires i < |qs| && TotalOf(qs[..i]) == Normal(total)
    ensures qs[i].Abrupt? ==> TotalOf(qs) == Abrupt(qs[i].exception)
    ensures qs[i].Normal? ==> TotalOf(qs[..i + 1]) == Normal(total + Charge(qs[i]).value)
  {
    TotalOfPrefix(qs, i);
    if qs[i].Abrupt? {
      PrefixRaises(qs, i + 1);
    }
  }

  /** Once the loop raises on a prefix of the quotes, the whole loop raises
      the same exception. */
  lemma {:induction false} PrefixRaises(qs: seq<Completion<FeeQuote>>, k: nat)
    requires k <= |qs| && TotalOf(qs[..k]).Abrupt?
    ensures TotalOf(qs) == TotalOf(qs[..k])
    decreases |qs| - k
  {
    if k < |qs| {
      assert qs[..k + 1][..k] == qs[..k];
      PrefixRaises(qs, k + 1);
    } else {
      assert qs[..k] == qs;
    }
  }
}
