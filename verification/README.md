# Library lending engine, modelled in Dafny

This project models the business logic of a small library management system.
The logic lives in `services/library_service.py`; `library_service.py` is an
older copy of it. The model covers:

- **Adding a book to the catalogue.** Title and author are trimmed. Six field
  checks run in a fixed order, then an ISBN duplicate check. The entry is
  stored with every copy available.
- **Borrowing and returning.** The patron id must be six digits. The book must
  exist and have a copy available. A patron may hold at most five outstanding
  loans and only one of each book. A loan is due 14 days after it is made. Both
  operations write twice (the loan record, then the availability), and the
  two writes are not atomic.
- **The late fee of one outstanding loan.** The fee is 0.50 a day for the first
  week overdue and 1.00 a day after that, capped at 15.00 per book. It is
  charged from 7 days overdue; a loan 1 to 6 days overdue raises (see below).
- **The patron status report.** It lists the outstanding loans and the full
  history, and adds up the fees of the loans whose status is "Overdue".
- **Catalogue search** by title, author or ISBN.
- **Paying and refunding late fees** through an injected payment gateway. Only
  the services copy has this code.

The data layer (`database`) is not part of this model. It is modelled as the
class `Store.Library`, which holds:

- the catalogue, a map from book id to entry, with ids assigned 1, 2, 3, …;
- the next id;
- the sequence of borrow records.

Its queries are functions and its writes are methods. Every write takes a flag
saying whether it fails. The engine's operations are methods on that store.
Each is proved against a pure specification function: the guard that decides
the refusal, the fee quote, the report. Lemmas state the properties of those
functions:

- the store invariants each operation keeps;
- the fee schedule against a day-by-day reference definition;
- the report total against the sum of each loan's own fee;
- borrow followed by return restoring availability and closing the loan;
- membership and order of search results;
- which gateway calls are made.

### How the model represents the source

- **Money** is in integer cents and **dates** are whole day numbers. The clock
  (`datetime.now()`) is a parameter `today`.
- **Replies.** A reply whose text embeds a formatted date is a structured
  value, for example `Lent(shownTitle, dueDay)`. Every fixed message is a
  constructor of `Domain.Message`, and `Domain.Wording` gives the exact text
  the source writes. The one exception, `UnsetStatus`, has no text in the
  source; `Wording` names only its class, `UnboundLocalError`, because the
  interpreter's message differs between Python versions.
- **Exceptions.** A Python exception is `Abrupt(…)` of `Domain.Completion`. An
  exception raised inside a called function propagates unless the source
  catches it.
- **The two copies** differ in one place. When nothing is found,
  calculate_late_fee_for_book quotes a fee of `0.0` in `services/` and `None`
  in the older copy. This is the `FeeCalculator.Copy` parameter. The older
  copy's lines are those of `services/` shifted up by one.

### Two behaviours of the code, modelled as written

- **A loan 1 to 6 days overdue raises.** calculate_late_fee_for_book sets
  `status` only when the loan is 0 days or less overdue, or 7 days or more
  (`services/library_service.py:193-200`). For 1 to 6 days overdue, the
  return statement reads an unbound local, so the call raises
  `UnboundLocalError`. The model returns `Abrupt(UnsetStatus)`. The status
  report and pay_late_fees call the fee code outside any `try`, so they raise
  too. See `Fees.Tier`, `StatusReporter.ReportRaises` and
  `Payments.PaymentForLoan`.
- **The borrow success message can name the wrong book.** The duplicate scan
  in borrow_book_by_patron (`services/library_service.py:91`) rebinds `book`.
  So the message names the book of the patron's last outstanding loan
  whenever there is one, not the book just borrowed. Which loan is last
  depends on the order get_patron_borrowed_books lists them in; the model
  takes insertion order (see "## Left out"). See
  `LoanManager.ShownTitle` and `LoanManager.ShownTitleOfOtherBook`.

## Model

| member | source | states |
|---|---|---|
| Text.ValidPatronId | services/library_service.py:73 | holds exactly for six ASCII digits, the ids the test at line 73 lets through |
| Text.Strip | services/library_service.py:30-54 | `str.strip()`: trailing whitespace dropped from what `lstrip` leaves; StripIsTrimmed, StripEmptyIffBlank and StripIdempotent state its properties |
| Text.TrimStart | services/library_service.py:30 | `lstrip` removes exactly a run of leading whitespace and leaves a suffix that does not start with whitespace |
| Text.TrimEnd | services/library_service.py:30 | `rstrip` removes exactly a run of trailing whitespace and leaves a prefix that does not end with whitespace |
| Text.StripIsTrimmed | services/library_service.py:54 | the stripped title or author neither starts nor ends with whitespace |
| Text.StripEmptyIffBlank | services/library_service.py:30-31 | `not title or not title.strip()` holds exactly when the string is empty or all whitespace |
| Text.StripIdempotent | services/library_service.py:54-56 | a stripped string is trimmed, and stripping it again changes nothing |
| Text.TrimmedIsFixed | services/library_service.py:54 | a string without surrounding whitespace is its own strip |
| Text.LowerChar | services/library_service.py:222 | lower-casing leaves no upper-case letter and leaves every other character alone |
| Text.Lower | services/library_service.py:221-222 | `lower()` keeps the length and lower-cases each character in place |
| Text.ContainsIffOccurs | services/library_service.py:233 | the substring test `term in text` holds exactly when the term occurs at some offset of the text |
| Text.Contains | services/library_service.py:233 | `needle in haystack`, tried at each offset from the left; ContainsIffOccurs ties it to an occurrence at some offset |
| Text.HasPrefix | services/library_service.py:368 | `transaction_id.startswith("txn_")`: the string begins with the prefix; PaidFeeIsRefundable uses it for the gateway's "txn_" ids |
| Domain.NewLoan | services/library_service.py:96-100 | the inserted record is outstanding, for the patron and book asked, made today and due 14 days later |
| Domain.Wording | services/library_service.py:31-375 | each fixed message constructor reads exactly as the source's string; the unset-status exception is named by its class |
| Fees.StatusText | services/library_service.py:273 | a not-found status reads as its message, and the text is "Overdue" exactly for the Overdue status, so the report's string test is a status test |
| Fees.Tier | services/library_service.py:187-202 | raises exactly for 1..6 days overdue; otherwise the fee lies in 0..15.00, "Overdue" exactly from 7 days, days overdue as computed, and at most 0 days gives fee 0, days 0, "Not overdue" |
| Fees.AccruedClosedForm | services/library_service.py:198 | the day-by-day schedule is 0.50 a day for up to 7 days, and 3.50 plus 1.00 a day after that |
| Fees.TierFollowsSchedule | services/library_service.py:196-199 | from 7 days overdue the quoted fee is the day-by-day accrual capped at 15.00 |
| Fees.TierMonotone | services/library_service.py:193-200 | more days overdue never lowers the fee |
| Fees.TierExamples | services/library_service.py:193-200 | 0 days gives 0.00 "Not overdue"; 7 days 3.50; 15 days 11.50; 100 days 15.00, all "Overdue" |
| Fees.TierCapReached | services/library_service.py:199 | the 15.00 cap is reached exactly from 19 days overdue |
| Ledger.Borrowed | services/library_service.py:90 | a patron's outstanding list holds exactly the patron's records with no return date, and is no longer than the records |
| Ledger.History | services/library_service.py:277 | a patron's history holds exactly the patron's records, returned or not |
| Ledger.OnLoan | services/library_service.py:104 | the count of copies out on loan is 0 for a book that no record names |
| Ledger.AppendRecord | services/library_service.py:100 | appending a record extends the outstanding list, the history and the on-loan count by at most that record |
| Ledger.FirstWithBook | services/library_service.py:134-137 | the scan with `break` finds a record for the book, and finds none exactly when no record is for it |
| Ledger.FirstWithBookOfDistinct | services/library_service.py:179-182 | in a list with one record per book, the scan for a record's book finds that very record |
| Ledger.FirstWithBookAt | services/library_service.py:179-182 | the scan stops at the first record for the book |
| Ledger.FirstOpenIndex | services/library_service.py:143 | the row the return stamps is the first outstanding record of (patron, book), and there is none exactly when no such record exists |
| Ledger.CloseFirst | services/library_service.py:143 | the return-date write stamps the first outstanding record of (patron, book) and adds or removes no record; CloseAtBorrowed and CloseAtCounts state its effect on the views |
| Ledger.OpenLoanLookup | services/library_service.py:132-139 | the scan over the outstanding list finds the book exactly when the store holds an outstanding record of (patron, book) |
| Ledger.FirstOpenAfterAppend | services/library_service.py:100 | the record a borrow appends is the one a later return stamps |
| Ledger.CloseAtBorrowed | services/library_service.py:143 | stamping a return date takes exactly that record off its patron's outstanding list |
| Ledger.CloseAtCounts | services/library_service.py:143 | stamping a return date takes one copy of the book off loan and keeps every history the same length |
| Ledger.DistinctAppend | services/library_service.py:90-93 | adding a record for a book not yet held keeps one record per book |
| Ledger.DistinctDrop | services/library_service.py:143 | removing records keeps one record per book |
| Store.AvailabilityWithinStock | services/library_service.py:81-82 | in a sound, balanced store availability lies between 0 and the number of copies, and no more copies are on loan than exist |
| Store.Adjusted | services/library_service.py:104 | changing availability never adds or removes catalogue entries |
| Store.Library.constructor | services/library_service.py:8-12 | the empty store is valid, sound and balanced |
| Store.Library.AllBooks | services/library_service.py:225 | the catalogue lists every book once, in id order |
| Store.Library.BookById | services/library_service.py:77 | `get_book_by_id` finds an entry exactly for a catalogued id, and in a sound catalogue the entry carries that id |
| Store.Library.IsbnTaken | services/library_service.py:49-51 | `get_book_by_isbn` finds a book exactly when some entry has the ISBN (the same test as Store.IsbnIn) |
| Store.Library.BorrowedBooks | services/library_service.py:90 | `get_patron_borrowed_books` is the patron's outstanding records, as Ledger.Borrowed states |
| Store.Library.BorrowCount | services/library_service.py:85 | `get_patron_borrow_count` is the number of the patron's outstanding records |
| Store.Library.BorrowingHistory | services/library_service.py:277 | `get_patron_borrowing_history` is all the patron's records, as Ledger.History states |
| Store.Library.InsertBook | services/library_service.py:54 | a successful insert adds the entry under the next id; a failed one changes nothing |
| Store.Library.InsertBorrowRecord | services/library_service.py:100 | a successful insert appends one outstanding record; a failed one changes nothing |
| Store.Library.UpdateBookAvailability | services/library_service.py:104 | a successful update shifts one book's availability by the delta; a failed one changes nothing |
| Store.Library.UpdateReturnDate | services/library_service.py:143 | a successful update stamps the first outstanding record of (patron, book); a failed one changes nothing |
| CatalogManager.FieldCheck | services/library_service.py:30-46 | the six field checks pass exactly for a non-empty title of at most 200 characters, a non-empty author of at most 100, a 13-character ISBN and a positive number of copies; a blank title is always the reply |
| CatalogManager.AddGuard | services/library_service.py:30-51 | a book passes exactly when the field checks pass and its ISBN is not yet in the catalogue; an ISBN already present is always refused |
| CatalogManager.NewEntry | services/library_service.py:53-54 | the entry passed to `insert_book` keeps the id and ISBN and has every copy available |
| CatalogManager.FieldsAdmit | services/library_service.py:30-46 | on trimmed strings the six field checks pass exactly for a valid catalogue entry |
| CatalogManager.AddGuardAdmits | services/library_service.py:30-51 | the checks admit a book exactly when its stored entry is valid and its ISBN is not yet in the catalogue |
| CatalogManager.AddRefusalOrder | services/library_service.py:30-51 | a blank title is reported whatever else is wrong, and a duplicate ISBN is reported exactly when every field is acceptable and the ISBN is taken |
| CatalogManager.AddKeepsEntries | services/library_service.py:54 | the admitted entry keeps every entry valid and every ISBN unique |
| CatalogManager.AddKeepsInvariants | services/library_service.py:54 | adding an admitted book keeps the store sound, and balanced if it was |
| CatalogManager.ReAddRefused | services/library_service.py:49-51 | once a book is added, its ISBN is refused again whatever the other fields, as a duplicate when they are acceptable |
| CatalogManager.AddBook | services/library_service.py:15-58 | refuses with the first failed check and changes nothing; a failed insert replies with the store error and leaves the catalogue as it was; otherwise stores the trimmed entry under the next id; keeps the store sound and balanced |
| LoanManager.BorrowGuard | services/library_service.py:73-93 | a borrow is admitted exactly for a six-digit id, a catalogued book with a copy available, fewer than 5 outstanding loans and no outstanding loan of that book |
| LoanManager.ReturnGuard | services/library_service.py:123-139 | a return is admitted exactly for a six-digit id, a catalogued book and an outstanding loan of it to the patron |
| LoanManager.ShownTitle | services/library_service.py:91-108 | the title in the borrow success message is the title of some catalogued book (which one depends on the record order; see "## Left out") |
| LoanManager.ShownTitleOfOtherBook | services/library_service.py:91-108 | the success message names the borrowed book exactly when the patron held nothing; otherwise it names another book the patron holds |
| LoanManager.AdjustKeepsEntries | services/library_service.py:104 | an availability change that stays non-negative keeps entries valid and unique |
| LoanManager.LendKeepsLimits | services/library_service.py:85-100 | a loan admitted by the limit and duplicate checks keeps every patron within 5 loans, one per book |
| LoanManager.LendKeepsSound | services/library_service.py:100-106 | lending keeps the store sound after the first write and after both |
| LoanManager.LendKeepsBalanced | services/library_service.py:100-106 | when both writes succeed, every copy is still either available or on loan |
| LoanManager.CloseKeepsRecords | services/library_service.py:143 | stamping a return keeps records referring and patrons within limits |
| LoanManager.ReceiveKeepsSound | services/library_service.py:143-149 | returning keeps the store sound after the first write and after both |
| LoanManager.ReceiveKeepsBalanced | services/library_service.py:143-149 | when both writes succeed, the returned copy is available again |
| LoanManager.AdjustRoundTrip | services/library_service.py:104 | taking a copy out and putting it back leaves the catalogue as it was |
| LoanManager.CloseAppended | services/library_service.py:143 | a return stamps exactly the record the borrow appended |
| LoanManager.BorrowThenReturnRestores | services/library_service.py:60-151 | after an admitted borrow, a return of the same book is admitted and restores availability, and the borrow record is closed |
| LoanManager.CheckBorrow | services/library_service.py:73-93 | the checks refuse exactly as BorrowGuard says and report the title the message shows |
| LoanManager.Lend | services/library_service.py:100-106 | a first failed write changes nothing; a second failed write leaves the record without the availability change; otherwise both apply |
| LoanManager.BorrowBook | services/library_service.py:60-108 | refusals change nothing; store errors as in Lend; success appends a loan due 14 days later and takes one copy out; keeps the store sound, and balanced unless the second write fails |
| LoanManager.CheckReturn | services/library_service.py:123-139 | the checks refuse exactly as ReturnGuard says and report the book's title |
| LoanManager.Receive | services/library_service.py:143-149 | a first failed write changes nothing; a second failed write closes the record only; otherwise both apply |
| LoanManager.ReturnBook | services/library_service.py:110-151 | refusals change nothing; success closes the outstanding record and puts the copy back; keeps the store sound, and balanced unless the second write fails |
| FeeCalculator.Sentinel | services/library_service.py:169 | the not-found fee is 0 in the services copy and None in the older copy |
| FeeCalculator.QuoteFor | services/library_service.py:168-184 | a malformed id, an unknown book or no outstanding loan each give the not-found quote with its message; the services copy always quotes a fee |
| FeeCalculator.QuoteFoundIff | services/library_service.py:168-202 | a quote names the days overdue, or raises, exactly when the patron holds the book |
| FeeCalculator.QuoteOfFound | services/library_service.py:177-202 | a found record is quoted by the tier of its own days overdue |
| FeeCalculator.QuoteOfOutstanding | services/library_service.py:177-202 | in a store with one loan per patron and book, each outstanding record is quoted by its own days overdue |
| FeeCalculator.QuoteOfOpenLoan | services/library_service.py:177-202 | an outstanding loan is quoted by the tier of its own days overdue |
| FeeCalculator.NothingOwedUntilDue | services/library_service.py:193-195 | up to 14 days after borrowing a loan owes nothing and is "Not overdue" |
| FeeCalculator.CopiesDifferOnlyInSentinel | library_service.py:167-183 | the two copies agree on every found record and every exception, and differ only in the not-found fee |
| FeeCalculator.CalculateLateFee | services/library_service.py:153-202 | the scan-based implementation returns QuoteFor |
| StatusReporter.Charge | services/library_service.py:270-274 | an exception propagates, and a quote whose status is not "Overdue" adds nothing |
| StatusReporter.Quotes | services/library_service.py:269-270 | the loop obtains one quote per outstanding record |
| StatusReporter.TotalOf | services/library_service.py:268-274 | a total that does not raise comes from quotes none of which raised |
| StatusReporter.QuotesAt | services/library_service.py:269-270 | the loop's i-th quote is the quote for the i-th outstanding record's book |
| StatusReporter.OwedOn | services/library_service.py:198-199 | a record owes between 0 and 15.00 |
| StatusReporter.SumOwed | services/library_service.py:268-274 | the reference total of n records lies between 0 and n times 15.00 |
| StatusReporter.AnyRaisesIff | services/library_service.py:269-270 | the recursive test finds a record 1..6 days overdue exactly when one exists |
| StatusReporter.TotalOfSnoc | services/library_service.py:273-274 | one more iteration adds the next charge, or raises |
| StatusReporter.TotalOfTiersRaises | services/library_service.py:268-274 | totalling the records' own quotes raises exactly when some record is 1..6 days overdue |
| StatusReporter.TotalOfTiersValue | services/library_service.py:268-274 | when it does not raise, the total equals the sum of the records' day-by-day fees |
| StatusReporter.TierQuotesAt | services/library_service.py:269-270 | the i-th reference quote is the tier of the i-th record's own days overdue |
| StatusReporter.OutstandingQuotes | services/library_service.py:265-274 | in a sound store the loop's quotes are the outstanding records' own tiered quotes |
| StatusReporter.QuotesMatchTiers | services/library_service.py:269-270 | when each record's book is quoted by that record's own tier, the loop's quotes are the records' tiered quotes |
| StatusReporter.OutstandingTotal | services/library_service.py:265-274 | in a sound store the loop's total is the total of the records' own tiered quotes |
| StatusReporter.ReportFor | services/library_service.py:261-287 | a malformed id gives None; a report is for the patron asked, with the non-empty outstanding list and the non-empty history of that patron |
| StatusReporter.ReportRaises | services/library_service.py:261-274 | the report raises exactly for a six-digit id with an outstanding loan 1..6 days overdue |
| StatusReporter.ReportAbsent | services/library_service.py:279-280 | the report is None exactly for a malformed id or a patron with nothing outstanding |
| StatusReporter.ReportValue | services/library_service.py:282-287 | a report lists the outstanding records and full history, and its total is the day-by-day sum |
| StatusReporter.ReportTotalBounded | services/library_service.py:268-285 | a report's total lies between 0 and 5 x 15.00 |
| StatusReporter.PatronStatusReport | services/library_service.py:237-287 | the loop-based implementation returns ReportFor |
| StatusReporter.TotalOfPrefix | services/library_service.py:269-274 | one more iteration over a prefix of the quotes |
| StatusReporter.PrefixRaises | services/library_service.py:270 | once the loop raises, the rest of the quotes do not matter |
| Search.ParseField | services/library_service.py:218-222 | the search type names title, author or ISBN exactly when its lower-cased form is that word |
| Search.Hit | services/library_service.py:228-233 | a book is kept when its stored ISBN equals the lower-cased term, or its lower-cased title or author contains the lower-cased term |
| Search.SearchResult | services/library_service.py:218-235 | an unknown search type gives the empty list; a result is never longer than the catalogue |
| Search.Filter | services/library_service.py:226-235 | the result is no longer than the catalogue |
| Search.FilterMembers | services/library_service.py:227-235 | a book is kept exactly when it is in the list and matches the term on the field |
| Search.SearchMembers | services/library_service.py:218-235 | a book is in the result exactly when the type names a field, the book is catalogued, and it matches on that field |
| Search.FilterIsSubsequence | services/library_service.py:228-235 | whatever the catalogue order, the kept books come in that order: the result is a subsequence of the list searched |
| Search.SearchIsSubsequence | services/library_service.py:224-235 | every search result is a subsequence of the catalogue it searched |
| Search.FilterKeepsOrder | services/library_service.py:228-234 | filtering keeps ascending ids ascending |
| Search.SearchKeepsOrder | services/library_service.py:225-235 | every search result lists books in catalogue order |
| Search.UnknownTypeFindsNothing | services/library_service.py:218-219 | an unknown search type gives the empty list |
| Search.UpperCaseIsbnNeverFound | services/library_service.py:222-229 | an ISBN holding an upper-case letter is never found by ISBN search |
| Search.EmptyTermFindsAll | services/library_service.py:232-234 | a title or author search for the empty term returns the whole catalogue |
| Search.SearchBooks | services/library_service.py:204-235 | the loop-based implementation returns SearchResult over the catalogue |
| Search.ScanIsbn | services/library_service.py:227-231 | the ISBN loop keeps exactly the books, in order, whose ISBN equals the lower-cased term |
| Search.ScanField | services/library_service.py:232-235 | the title or author loop keeps exactly the books, in order, whose lower-cased field contains the lower-cased term |
| Payments.Gateway.constructor | services/library_service.py:289 | a new gateway answers with its configured outcomes and has received no call |
| Payments.Gateway.ProcessPayment | services/library_service.py:337-341 | the call is recorded with its arguments and answered with the configured outcome |
| Payments.Gateway.RefundPayment | services/library_service.py:384 | the call is recorded with its arguments and answered with the configured outcome |
| Payments.LateFeeDescription | services/library_service.py:340 | the description sent with a payment, naming the book's title |
| Payments.PaymentPlan | services/library_service.py:311-328 | a malformed id is refused before anything else; a charge is made only for a well-formed id and a catalogued book, with a positive amount and that book's description |
| Payments.PayTuple | services/library_service.py:343-350 | success exactly when the gateway accepts, with its transaction id and None otherwise; refusals read their message; a raising gateway reads "Payment processing error: …" |
| Payments.PayLateFees | services/library_service.py:289-350 | the fee exception propagates and refusals make no gateway call; a charge makes exactly one call, with the fee and description, and returns its outcome |
| Payments.PaymentForLoan | services/library_service.py:311-341 | for an outstanding loan: raises exactly 1..6 days overdue, nothing to pay up to the due date, and from 7 days a charge of the day-by-day accrual capped at 15.00 |
| Payments.PaymentWithoutLoan | services/library_service.py:315-323 | without an outstanding loan a six-digit id gets "No late fees to pay for this book." |
| Payments.PaymentNeverMissesBook | services/library_service.py:326-328 | the "Book not found." refusal is never given |
| Payments.ChargeWithinBounds | services/library_service.py:321-341 | every charge lies between 3.50 and 15.00 |
| Payments.RefundGuard | services/library_service.py:368-375 | a refund passes the checks exactly for a "txn_" id and an amount in (0, 15.00] |
| Payments.PaidFeeIsRefundable | services/library_service.py:368-375 | every charged fee can be refunded in full under a "txn_" transaction id |
| Payments.RefundTuple | services/library_service.py:386-392 | success exactly when the gateway accepts, with its message; refusals read their message; a raising gateway reads "Refund processing error: …" |
| Payments.RefundLateFeePayment | services/library_service.py:353-392 | refusals make no gateway call; otherwise exactly one call with the id and amount, and its outcome is returned |

## Left out

- The database module is not part of this model. It is a map of books and a sequence of records. SQL, connections and persistence are not modelled.
- Store.Library.UpdateReturnDate stamps only the first outstanding record of (patron, book). In a sound store there is never more than one, so this is the same as updating every matching row.
- Store.Library.AllBooks returns the catalogue in ascending id order. The real order is the database's and is not visible here.
- The outstanding records of get_patron_borrowed_books are modelled as borrow records whose `book_id` names a catalogued book. The title comes from the catalogue, not from a joined column.
- Dates are whole day numbers. `datetime.now()` is the parameter `today`. Time of day, `strftime` formatting and `(a - b).days` rounding within a day are not modelled.
- Replies that embed a title and a formatted date are structured values, for example `Lent(shownTitle, dueDay)`, not strings. Fixed messages are `Domain.Message` constructors with their exact wording.
- Money is in integer cents. The source's float arithmetic, and refund amounts with fractions of a cent, are not modelled.
- `str.isdigit`, `str.strip` and `str.lower` are modelled on ASCII only. Unicode digits, whitespace and case mappings are not.
- The `isinstance(total_copies, int)` test is implied by the integer parameter type.
- StatusReporter.Charge tests the quote's status value rather than its text. Fees.StatusText proves that the text is "Overdue" exactly for that status.
- The `PaymentGateway()` default, used when no gateway is passed, and the real gateway's network calls are not modelled. The gateway is an injected object answering with configured outcomes.
- The "Unable to calculate late fees." branch of pay_late_fees is not modelled. It is never taken, because the fee quote always has `fee_amount`.
- Exceptions raised by the data layer are not modelled. Its failures are the `fails` flags and `StoreFault`.
- LoanManager.ShownTitle takes the outstanding records of get_patron_borrowed_books in the order they were inserted. The real order is the database's and is not visible here, yet it decides which title BorrowBook's success reply shows when the patron already holds books. LoanManager.ShownTitleOfOtherBook states what holds whatever the order: the title is the borrowed book's own exactly when the patron held nothing, and otherwise that of another book the patron holds.
- The Flask routes and the test suite are not part of this model.
