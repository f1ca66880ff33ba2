/** add_book_to_catalog: validate the fields in a fixed order, refuse a
    duplicate ISBN, then insert the trimmed entry with every copy available. */
module CatalogManager {
  import opened Domain
  import opened Text
  import opened Ledger
  import opened Store

  /** The field checks, in the order the source runs them, on the stripped
      title `t` and stripped author `a` (an empty title strips to the empty
      string, so "missing or blank" is one test); the first that fails gives
      the reply's message. */
  function FieldCheck(t: string, a: string, isbn: string, copies: int): (r: Option<Message>)
    ensures r.None? <==> && t != [] && |t| <= MaxTitleLength && a != [] && |a| <= MaxAuthorLength
                         && |isbn| == IsbnLength && copies > 0
    ensures t == [] ==> r == Some(TitleRequired)
  {
    if t == [] then Some(TitleRequired)
    else if |t| > MaxTitleLength then Some(TitleTooLong)
    else if a == [] then Some(AuthorRequired)
    else if |a| > MaxAuthorLength then Some(AuthorTooLong)
    else if |isbn| != IsbnLength then Some(IsbnWrongLength)
    else if copies <= 0 then Some(CopiesNotPositive)
    else None
  }

  /** Why the book is refused before anything is written, if it is. */
  function AddGuard(books: map<int, Book>, title: string, author: string, isbn: string, copies: int): (r: Option<Message>)
    ensures IsbnIn(books, isbn) ==> r.Some?
    ensures r.None? <==> FieldCheck(Strip(title), Strip(author), isbn, copies).None? && !IsbnIn(books, isbn)
  {
    var check := FieldCheck(Strip(title), Strip(author), isbn, copies);
    if check.Some? then check
    else if IsbnIn(books, isbn) then Some(DuplicateIsbn)
    else None
  }

  /** The entry insert_book receives: trimmed title and author, and as many
      copies available as there are copies. */
  function NewEntry(id: int, title: string, author: string, isbn: string, copies: int): (e: Book)
    ensures e.id == id && e.isbn == isbn && e.availableCopies == e.totalCopies == copies
  {
    Book(id, Strip(title), Strip(author), isbn, copies, copies)
  }

  /** On trimmed strings the field checks pass exactly for a valid entry. */
  lemma FieldsAdmit(id: int, t: string, a: string, isbn: string, copies: int)
    requires Trimmed(t) && Trimmed(a)
    ensures FieldCheck(t, a, isbn, copies).None? <==> EntryOk(Book(id, t, a, isbn, copies, copies))
  {
  }

  /** The checks admit exactly the books whose stored entry is a valid
      catalogue entry with an ISBN not yet in the catalogue. */
  lemma AddGuardAdmits(books: map<int, Book>, id: int, title: string, author: string, isbn: string, copies: int)
    ensures AddGuard(books, title, author, isbn, copies).None? <==>
            EntryOk(NewEntry(id, title, author, isbn, copies)) && !IsbnIn(books, isbn)
  {
    StripIdempotent(title);
    StripIdempotent(author);
    FieldsAdmit(id, Strip(title), Strip(author), isbn, copies);
  }

  /** Each refusal names the first rule broken: a blank title is reported
      whatever else is wrong, a duplicate ISBN only when every field is
      acceptable. */
  lemma AddRefusalOrder(books: map<int, Book>, title: string, author: string, isbn: string, copies: int)
    ensures (forall k :: 0 <= k < |title| ==> IsSpace(title[k])) ==>
              AddGuard(books, title, author, isbn, copies) == Some(TitleRequired)
    ensures AddGuard(books, title, author, isbn, copies) == Some(DuplicateIsbn) <==>
              FieldCheck(Strip(title), Strip(author), isbn, copies).None? && IsbnIn(books, isbn)
  {
    StripEmptyIffBlank(title);
  }

  /** The admitted entry can join the catalogue under a fresh id: entries
      stay admitted and ISBNs stay unique. */
  lemma AddKeepsEntries(books: map<int, Book>, id: int, title: string, author: string, isbn: string, copies: int)
    requires EntriesOk(books) && IsbnUnique(books) && id !in books
    requires AddGuard(books, title, author, isbn, copies).None?
    ensures EntriesOk(books[id := NewEntry(id, title, author, isbn, copies)])
    ensures IsbnUnique(books[id := NewEntry(id, title, author, isbn, copies)])
  {
    AddGuardAdmits(books, id, title, author, isbn, copies);
    InsertKeepsEntries(books, NewEntry(id, title, author, isbn, copies));
  }

  /** An admitted entry under a fresh id, with an ISBN not yet in the
      catalogue, keeps entries admitted and ISBNs unique. */
  lemma InsertKeepsEntries(books: map<int, Book>, e: Book)
    requires EntriesOk(books) && IsbnUnique(books) && e.id !in books
    requires EntryOk(e) && e.availableCopies >= 0 && !IsbnIn(books, e.isbn)
    ensures EntriesOk(books[e.id := e]) && IsbnUnique(books[e.id := e])
  {
  }

  /** Adding an admitted book keeps the store sound and balanced. */
  lemma AddKeepsInvariants(books: map<int, Book>, loans: seq<Loan>, id: int,
                           title: string, author: string, isbn: string, copies: int)
    requires Sound(books, loans) && id !in books
    requires AddGuard(books, title, author, isbn, copies).None?
    ensures Sound(books[id := NewEntry(id, title, author, isbn, copies)], loans)
    ensures Balanced(books, loans) ==> Balanced(books[id := NewEntry(id, title, author, isbn, copies)], loans)
  {
    AddKeepsEntries(books, id, title, author, isbn, copies);
    var nb := books[id := NewEntry(id, title, author, isbn, copies)];
    assert LoansRefer(nb, loans);
    if Balanced(books, loans) {
      assert forall l :: l in loans ==> l.bookId != id;
      assert OnLoan(loans, id) == 0;
    }
  }

  /** Once a book is added, adding its ISBN again is refused whatever the
      other fields: with the duplicate message when they are acceptable. */
  lemma ReAddRefused(books: map<int, Book>, id: int, title: string, author: string, isbn: string, copies: int,
                     title2: string, author2: string, copies2: int)
    requires AddGuard(books, title, author, isbn, copies).None?
    ensures var after := books[id := NewEntry(id, title, author, isbn, copies)];
            AddGuard(after, title2, author2, isbn, copies2).Some?
            && (FieldCheck(Strip(title2), Strip(author2), isbn, copies2).None? ==>
                  AddGuard(after, title2, author2, isbn, copies2) == Some(DuplicateIsbn))
  {
    var after := books[id := NewEntry(id, title, author, isbn, copies)];
    assert after[id].isbn == isbn;
    assert IsbnIn(after, isbn);
  }

  /** add_book_to_catalog. */
  method AddBook(db: Library, title: string, author: string, isbn: string, copies: int, fails: bool)
    returns (r: AddReply)
    requires db.Valid() && Sound(db.books, db.loans)
    modifies db
    ensures db.Valid() && Sound(db.books, db.loans) && db.loans == old(db.loans)
    ensures old(Balanced(db.books, db.loans)) ==> Balanced(db.books, db.loans)
    ensures AddGuard(old(db.books), title, author, isbn, copies).Some? ==>
              r == AddRefused(AddGuard(old(db.books), title, author, isbn, copies).value)
              && db.books == old(db.books) && db.nextId == old(db.nextId)
    ensures AddGuard(old(db.books), title, author, isbn, copies).None? && fails ==>
              r == AddRefused(AddStoreError) && db.books == old(db.books) && db.nextId == old(db.nextId)
    ensures AddGuard(old(db.books), title, author, isbn, copies).None? && !fails ==>
              r == Added(Strip(title))
              && db.books == old(db.books)[old(db.nextId) := NewEntry(old(db.nextId), title, author, isbn, copies)]
              && db.nextId == old(db.nextId) + 1
  {
    var t, a := Strip(title), Strip(author);
    if t == [] {
      return AddRefused(TitleRequired);
    }
    if |t| > MaxTitleLength {
      return AddRefused(TitleTooLong);
    }
    if a == [] {
      return AddRefused(AuthorRequired);
    }
    if |a| > MaxAuthorLength {
      return AddRefused(AuthorTooLong);
    }
    if |isbn| != IsbnLength {
      return AddRefused(IsbnWrongLength);
    }
    if copies <= 0 {
      return AddRefused(CopiesNotPositive);
    }
    if db.IsbnTaken(isbn) {
      return AddRefused(DuplicateIsbn);
    }
    assert AddGuard(db.books, title, author, isbn, copies).None?;
    AddKeepsInvariants(db.books, db.loans, db.nextId, title, author, isbn, copies);
    ghost var entry := NewEntry(db.nextId, title, author, isbn, copies);
    assert entry == Book(db.nextId, t, a, isbn, copies, copies);
    var ok := db.InsertBook(t, a, isbn, copies, copies, fails);
    if ok {
      r := Added(t);
    } else {
      r := AddRefused(AddStoreError);
    }
  }
}
