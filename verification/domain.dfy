/** The entities and fixed texts shared by every part of the lending engine:
    books, loan (borrow) records, the replies of the operations and the
    messages callers match on. */
module Domain {

  datatype Option<+T> = None | Some(value: T)

  /** How a Python call ends: with a value, or with an exception that
      propagates to the caller. */
  datatype Completion<+T> = Normal(value: T) | Abrupt(exception: Message)

  /** A catalogue entry; `id` is assigned by the store. */
  datatype Book = Book(id: int, title: string, author: string, isbn: string,
                       totalCopies: int, availableCopies: int)

  /** A borrow record. It is outstanding while `returnDay` is `None`.
      Days are whole days on one calendar axis. */
  datatype Loan = Loan(patronId: string, bookId: int, borrowDay: int, dueDay: int,
                       returnDay: Option<int>)
  {
    predicate Open() { returnDay.None? }
  }

  const LoanPeriodDays := 14
  const MaxOpenLoans := 5
  const MaxTitleLength := 200
  const MaxAuthorLength := 100
  const IsbnLength := 13

  /** The record a successful borrow inserts: outstanding, made today and
      due 14 days later. */
  function NewLoan(patronId: string, bookId: int, today: int): (l: Loan)
    ensures l.Open() && l.patronId == patronId && l.bookId == bookId
    ensures l.borrowDay == today && l.dueDay - l.borrowDay == LoanPeriodDays
  {
    Loan(patronId, bookId, today, today + LoanPeriodDays, None)
  }

  /** Which write of a two-step update the data layer fails, if any. */
  datatype StoreFault = NoFault | FirstWriteFails | SecondWriteFails

  /** Reply of add_book_to_catalog. */
  datatype AddReply = Added(title: string) | AddRefused(message: Message)

  /** Reply of borrow_book_by_patron: the title the success message shows and
      the due day (the message's formatted date). */
  datatype BorrowReply = Lent(shownTitle: string, dueDay: int) | BorrowRefused(message: Message)

  /** Reply of return_book_by_patron: the title the message shows and the return day. */
  datatype ReturnReply = Received(shownTitle: string, returnDay: int) | ReturnRefused(message: Message)

  /** The fixed messages of the replies and the exception, by name; Wording
      gives each one's exact wording. */
  datatype Message =
    // add_book_to_catalog
    | TitleRequired | TitleTooLong | AuthorRequired | AuthorTooLong
    | IsbnWrongLength | CopiesNotPositive | DuplicateIsbn | AddStoreError
    // borrow_book_by_patron (the first two also elsewhere)
    | InvalidPatronId | BookNotFound | NotAvailable | LimitReached | AlreadyBorrowed
    | RecordStoreError | AvailabilityStoreError
    // return_book_by_patron
    | NotBorrowed | ReturnDateStoreError
    // calculate_late_fee_for_book
    | RecordNotFound | UnsetStatus
    // pay_late_fees and refund_late_fee_payment
    | NoLateFees | InvalidTransaction | RefundNotPositive | RefundTooLarge

  /** The wording of each message. UnsetStatus is the exception raised when
      the fee code reads `status` before assigning it; the source gives it no
      text of its own, and the interpreter's text differs between Python
      versions, so it is identified by its exception class only. */
  function Wording(m: Message): string {
    match m
    case TitleRequired => "Title is required."
    case TitleTooLong => "Title must be less than 200 characters."
    case AuthorRequired => "Author is required."
    case AuthorTooLong => "Author must be less than 100 characters."
    case IsbnWrongLength => "ISBN must be exactly 13 digits."
    case CopiesNotPositive => "Total copies must be a positive integer."
    case DuplicateIsbn => "A book with this ISBN already exists."
    case AddStoreError => "Database error occurred while adding the book."
    case InvalidPatronId => "Invalid patron ID. Must be exactly 6 digits."
    case BookNotFound => "Book not found."
    case NotAvailable => "This book is currently not available."
    case LimitReached => "You have reached the maximum borrowing limit of 5 books."
    case AlreadyBorrowed => "This book is already borrowed by you."
    case RecordStoreError => "Database error occurred while creating borrow record."
    case AvailabilityStoreError => "Database error occurred while updating book availability."
    case NotBorrowed => "Book was not borrowed by this patron."
    case ReturnDateStoreError => "Database error occurred while updating return date."
    case RecordNotFound => "Borrow record not found."
    case UnsetStatus => "UnboundLocalError"
    case NoLateFees => "No late fees to pay for this book."
    case InvalidTransaction => "Invalid transaction ID."
    case RefundNotPositive => "Refund amount must be greater than 0."
    case RefundTooLarge => "Refund amount exceeds maximum late fee."
  }
}
