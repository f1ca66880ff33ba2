/** Queries over the sequence of borrow records, as the data layer answers
    them: a patron's outstanding loans, a patron's history, the copies of a
    book out on loan, and the lookup of an outstanding record. */
module Ledger {
  import opened Domain

  /** The record is an outstanding loan of book `b` to patron `p`. */
  predicate IsOpenLoanOf(l: Loan, p: string, b: int) {
    l.patronId == p && l.bookId == b && l.Open()
  }

  /** get_patron_borrowed_books: the patron's outstanding records, in record
      order. Its length is get_patron_borrow_count. */
  function Borrowed(loans: seq<Loan>, p: string): (r: seq<Loan>)
    ensures |r| <= |loans|
    ensures forall x {:trigger x in r} :: x in r <==> x in loans && x.patronId == p && x.Open()
  {
    if loans == [] then []
    else (if loans[0].patronId == p && loans[0].Open() then [loans[0]] else []) + Borrowed(loans[1..], p)
  }

  /** get_patron_borrowing_history: every record of the patron, returned or not. */
  function History(loans: seq<Loan>, p: string): (r: seq<Loan>)
    ensures |r| <= |loans|
    ensures forall x {:trigger x in r} :: x in r <==> x in loans && x.patronId == p
  {
    if loans == [] then []
    else (if loans[0].patronId == p then [loans[0]] else []) + History(loans[1..], p)
  }

  /** Number of copies of book `b` currently out on loan. */
  function OnLoan(loans: seq<Loan>, b: int): (n: nat)
    ensures n <= |loans|
    ensures (forall x :: x in loans ==> x.bookId != b) ==> n == 0
  {
    if loans == [] then 0
    else (if loans[0].bookId == b && loans[0].Open() then 1 else 0) + OnLoan(loans[1..], b)
  }

  lemma {:induction false} BorrowedConcat(a: seq<Loan>, c: seq<Loan>, p: string)
    ensures Borrowed(a + c, p) == Borrowed(a, p) + Borrowed(c, p)
  {
    if a != [] {
      assert (a + c)[1..] == a[1..] + c;
      BorrowedConcat(a[1..], c, p);
    } else {
      assert a + c == c;
    }
  }

  lemma {:induction false} HistoryConcat(a: seq<Loan>, c: seq<Loan>, p: string)
    ensures History(a + c, p) == History(a, p) + History(c, p)
  {
    if a != [] {
      assert (a + c)[1..] == a[1..] + c;
      HistoryConcat(a[1..], c, p);
    } else {
      assert a + c == c;
    }
  }

  lemma {:induction false} OnLoanConcat(a: seq<Loan>, c: seq<Loan>, b: int)
    ensures OnLoan(a + c, b) == OnLoan(a, b) + OnLoan(c, b)
  {
    if a != [] {
      assert (a + c)[1..] == a[1..] + c;
      OnLoanConcat(a[1..], c, b);
    } else {
      assert a + c == c;
    }
  }

  /** Appending a record extends each query by at most that record. */
  lemma AppendRecord(loans: seq<Loan>, x: Loan, p: string, b: int)
    ensures Borrowed(loans + [x], p) == Borrowed(loans, p) + (if x.patronId == p && x.Open() then [x] else [])
    ensures History(loans + [x], p) == History(loans, p) + (if x.patronId == p then [x] else [])
    ensures OnLoan(loans + [x], b) == OnLoan(loans, b) + (if x.bookId == b && x.Open() then 1 else 0)
  {
    BorrowedConcat(loans, [x], p);
    HistoryConcat(loans, [x], p);
    OnLoanConcat(loans, [x], b);
  }

  /** The record with its return day set. */
  function Closed(l: Loan, day: int): Loan {
    l.(returnDay := Some(day))
  }

  /** Each query distributes over a record placed between two runs of records. */
  lemma Around(pre: seq<Loan>, m: Loan, post: seq<Loan>, q: string, k: int)
    ensures Borrowed(pre + [m] + post, q) == Borrowed(pre, q) + Borrowed([m], q) + Borrowed(post, q)
    ensures History(pre + [m] + post, q) == History(pre, q) + History([m], q) + History(post, q)
    ensures OnLoan(pre + [m] + post, k) == OnLoan(pre, k) + OnLoan([m], k) + OnLoan(post, k)
  {
    BorrowedConcat(pre + [m], post, q);
    BorrowedConcat(pre, [m], q);
    HistoryConcat(pre + [m], post, q);
    HistoryConcat(pre, [m], q);
    OnLoanConcat(pre + [m], post, k);
    OnLoanConcat(pre, [m], k);
  }

  /** The queries on a single record. */
  lemma Single(m: Loan, q: string, k: int)
    ensures Borrowed([m], q) == if m.patronId == q && m.Open() then [m] else []
    ensures History([m], q) == if m.patronId == q then [m] else []
    ensures OnLoan([m], k) == if m.bookId == k && m.Open() then 1 else 0
  {
    assert [m][1..] == [];
  }

  /** A patron's outstanding list, split around the record at index i. */
  lemma SplitBorrowed(loans: seq<Loan>, i: nat, q: string)
    requires i < |loans| && loans[i].Open()
    ensures Borrowed(loans, q) == Borrowed(loans[..i], q)
                                  + (if loans[i].patronId == q then [loans[i]] else [])
                                  + Borrowed(loans[i + 1..], q)
  {
    var pre, post := loans[..i], loans[i + 1..];
    assert loans == pre + [loans[i]] + post;
    Around(pre, loans[i], post, q, 0);
    Single(loans[i], q, 0);
  }

  /** Closing the outstanding record at index i removes it from its patron's
      outstanding list and leaves the rest of every list in place. */
  lemma CloseAtBorrowed(loans: seq<Loan>, i: nat, day: int, q: string)
    requires i < |loans| && loans[i].Open()
    ensures Borrowed(loans[i := Closed(loans[i], day)], q) == Borrowed(loans[..i], q) + Borrowed(loans[i + 1..], q)
  {
    var pre, post := loans[..i], loans[i + 1..];
    var c := Closed(loans[i], day);
    assert loans[i := c] == pre + [c] + post;
    Around(pre, c, post, q, 0);
    Single(c, q, 0);
  }

  /** Closing the outstanding record at index i takes one copy of its book off
      loan and keeps every history the same length. */
  lemma CloseAtCounts(loans: seq<Loan>, i: nat, day: int, q: string, k: int)
    requires i < |loans| && loans[i].Open()
    ensures OnLoan(loans[i := Closed(loans[i], day)], k) + (if loans[i].bookId == k then 1 else 0) == OnLoan(loans, k)
    ensures |History(loans[i := Closed(loans[i], day)], q)| == |History(loans, q)|
  {
    var pre, post := loans[..i], loans[i + 1..];
    var c := Closed(loans[i], day);
    assert loans == pre + [loans[i]] + post;
    assert loans[i := c] == pre + [c] + post;
    Around(pre, loans[i], post, q, k);
    Around(pre, c, post, q, k);
    Single(loans[i], q, k);
    Single(c, q, k);
  }

  /** The loop `for record in borrowed_books: if record['book_id'] == book_id`
      stopped at its first hit. */
  function FirstWithBook(rs: seq<Loan>, b: int): (r: Option<Loan>)
    ensures r.Some? ==> r.value in rs && r.value.bookId == b
    ensures r.None? ==> forall x :: x in rs ==> x.bookId != b
  {
    if rs == [] then None
    else if rs[0].bookId == b then Some(rs[0])
    else FirstWithBook(rs[1..], b)
  }

  /** No two records of the sequence are for the same book. */
  predicate DistinctBooks(rs: seq<Loan>) {
    forall i, j :: 0 <= i < j < |rs| ==> rs[i].bookId != rs[j].bookId
  }

  /** In a list without two records for one book, looking up a record's book
      finds that very record. */
  lemma {:induction false} FirstWithBookOfDistinct(rs: seq<Loan>, k: nat)
    requires DistinctBooks(rs) && k < |rs|
    ensures FirstWithBook(rs, rs[k].bookId) == Some(rs[k])
  {
    if k > 0 {
      assert rs[0].bookId != rs[k].bookId;
      assert rs[1..][k - 1] == rs[k];
      FirstWithBookOfDistinct(rs[1..], k - 1);
    }
  }

  /** The first record for book `b` is the one at index i when none before it is. */
  lemma {:induction false} FirstWithBookAt(rs: seq<Loan>, b: int, i: nat)
    requires i < |rs| && rs[i].bookId == b
    requires forall j :: 0 <= j < i ==> rs[j].bookId != b
    ensures FirstWithBook(rs, b) == Some(rs[i])
  {
    if i > 0 {
      assert rs[1..][i - 1] == rs[i];
      FirstWithBookAt(rs[1..], b, i - 1);
    }
  }

  /** Index of the first outstanding record of (p, b): the row that
      update_borrow_record_return_date stamps. */
  function FirstOpenIndex(loans: seq<Loan>, p: string, b: int): (r: Option<nat>)
    ensures r.Some? ==> r.value < |loans| && IsOpenLoanOf(loans[r.value], p, b)
    ensures r.Some? ==> forall j :: 0 <= j < r.value ==> !IsOpenLoanOf(loans[j], p, b)
    ensures r.None? <==> forall j :: 0 <= j < |loans| ==> !IsOpenLoanOf(loans[j], p, b)
  {
    if loans == [] then None
    else if IsOpenLoanOf(loans[0], p, b) then Some(0)
    else match FirstOpenIndex(loans[1..], p, b)
      case None => None
      case Some(i) => Some(i + 1)
  }

  /** Stamp the return day on the first outstanding record of (p, b), if any. */
  function CloseFirst(loans: seq<Loan>, p: string, b: int, day: int): (r: seq<Loan>)
    ensures |r| == |loans|
  {
    match FirstOpenIndex(loans, p, b)
    case None => loans
    case Some(i) => loans[i := Closed(loans[i], day)]
  }

  /** The patron's outstanding list holds a record for the book exactly when
      the store holds an outstanding record of (p, b). */
  lemma OpenLoanLookup(loans: seq<Loan>, p: string, b: int)
    ensures FirstWithBook(Borrowed(loans, p), b).Some? <==> FirstOpenIndex(loans, p, b).Some?
    ensures FirstOpenIndex(loans, p, b).Some? <==> exists l :: l in loans && IsOpenLoanOf(l, p, b)
  {
    if FirstOpenIndex(loans, p, b).Some? {
      var i := FirstOpenIndex(loans, p, b).value;
      assert loans[i] in Borrowed(loans, p);
    }
  }

  /** A new outstanding record of (p, b) appended when none exists is the one
      a later return stamps. */
  lemma FirstOpenAfterAppend(loans: seq<Loan>, x: Loan, p: string, b: int)
    requires FirstOpenIndex(loans, p, b).None? && IsOpenLoanOf(x, p, b)
    ensures FirstOpenIndex(loans + [x], p, b) == Some(|loans|)
  {
    var n := loans + [x];
    assert IsOpenLoanOf(n[|loans|], p, b);
    assert forall j :: 0 <= j < |loans| ==> n[j] == loans[j];
  }

  /** A record for a book not yet in the list keeps its books distinct. */
  lemma DistinctAppend(rs: seq<Loan>, x: Loan)
    requires DistinctBooks(rs) && forall y :: y in rs ==> y.bookId != x.bookId
    ensures DistinctBooks(rs + [x])
  {
    var n := rs + [x];
    forall i, j | 0 <= i < j < |n| ensures n[i].bookId != n[j].bookId {
      if j == |rs| {
        assert n[i] in rs;
      }
    }
  }

  /** Dropping a record from the middle keeps the books distinct. */
  lemma DistinctDrop(a: seq<Loan>, m: seq<Loan>, c: seq<Loan>)
    requires DistinctBooks(a + m + c)
    ensures DistinctBooks(a + c)
  {
    var whole, n := a + m + c, a + c;
    forall i, j | 0 <= i < j < |n| ensures n[i].bookId != n[j].bookId {
      var i', j' := if i < |a| then i else i + |m|, if j < |a| then j else j + |m|;
      assert n[i] == whole[i'] && n[j] == whole[j'];
    }
  }
}
