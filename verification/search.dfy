/** search_books_in_catalog: pick the field by the case-insensitive search
    type, then keep, in catalogue order, the books whose ISBN equals the
    lower-cased term or whose lower-cased title or author contains it. */
module Search {
  import opened Domain
  import opened Text
  import opened Store

  datatype SearchField = Title | Author | Isbn

  /** The search type, lower-cased, names one of the three fields, or none. */
  function ParseField(searchType: string): (f: Option<SearchField>)
    ensures f == Some(Title) <==> Lower(searchType) == "title"
    ensures f == Some(Author) <==> Lower(searchType) == "author"
    ensures f == Some(Isbn) <==> Lower(searchType) == "isbn"
  {
    var t := Lower(searchType);
    if t == "title" then Some(Title)
    else if t == "author" then Some(Author)
    else if t == "isbn" then Some(Isbn)
    else None
  }

  /** Whether one book is kept: the ISBN is compared as it is stored with the
      lower-cased term; title and author are lower-cased and searched. */
  predicate Hit(b: Book, field: SearchField, term: string) {
    match field
    case Isbn => Lower(term) == b.isbn
    case Title => Contains(Lower(b.title), Lower(term))
    case Author => Contains(Lower(b.author), Lower(term))
  }

  /** The books of `bs` that are kept, in their order. */
  function Filter(bs: seq<Book>, field: SearchField, term: string): (r: seq<Book>)
    ensures |r| <= |bs|
  {
    if bs == [] then []
    else Filter(bs[..|bs| - 1], field, term) + (if Hit(bs[|bs| - 1], field, term) then [bs[|bs| - 1]] else [])
  }

  /** The list search_books_in_catalog returns for the catalogue `bs`: empty
      for an unknown search type, never longer than the catalogue. */
  function SearchResult(bs: seq<Book>, term: string, searchType: string): (r: seq<Book>)
    ensures |r| <= |bs|
    ensures ParseField(searchType).None? ==> r == []
  {
    match ParseField(searchType)
    case None => []
    case Some(field) => Filter(bs, field, term)
  }

  /** A book is in the result exactly when it is in the catalogue, the type
      names a field, and the book matches the term on that field. */
  lemma {:induction false} FilterMembers(bs: seq<Book>, field: SearchField, term: string)
    ensures forall b :: b in Filter(bs, field, term) <==> b in bs && Hit(b, field, term)
  {
    if bs != [] {
      var front := bs[..|bs| - 1];
      FilterMembers(front, field, term);
      assert bs == front + [bs[|bs| - 1]];
    }
  }

  lemma SearchMembers(bs: seq<Book>, term: string, searchType: string, b: Book)
    ensures b in SearchResult(bs, term, searchType) <==>
              ParseField(searchType).Some? && b in bs && Hit(b, ParseField(searchType).value, term)
  {
    if ParseField(searchType).Some? {
      FilterMembers(bs, ParseField(searchType).value, term);
    }
  }

  /** `r` is `bs` with some elements dropped: its elements occur in `bs` in
      the same order. */
  predicate IsSubsequence(r: seq<Book>, bs: seq<Book>)
    decreases |bs|
  {
    r == [] ||
    (bs != [] &&
     ((r[|r| - 1] == bs[|bs| - 1] && IsSubsequence(r[..|r| - 1], bs[..|bs| - 1]))
      || IsSubsequence(r, bs[..|bs| - 1])))
  }

  /** Whatever order the catalogue comes in, the kept books come in that
      order: the result is a subsequence of the list searched. */
  lemma {:induction false} FilterIsSubsequence(bs: seq<Book>, field: SearchField, term: string)
    ensures IsSubsequence(Filter(bs, field, term), bs)
  {
    if bs != [] {
      var front := bs[..|bs| - 1];
      FilterIsSubsequence(front, field, term);
      var r := Filter(bs, field, term);
      if Hit(bs[|bs| - 1], field, term) {
        assert r[|r| - 1] == bs[|bs| - 1] && r[..|r| - 1] == Filter(front, field, term);
      } else {
        assert r == Filter(front, field, term);
      }
      assert bs[..|bs| - 1] == front;
    }
  }

  /** Search results keep the order of the catalogue searched, whatever it is. */
  lemma SearchIsSubsequence(bs: seq<Book>, term: string, searchType: string)
    ensures IsSubsequence(SearchResult(bs, term, searchType), bs)
  {
    if ParseField(searchType).Some? {
      FilterIsSubsequence(bs, ParseField(searchType).value, term);
    }
  }

  /** Book ids strictly increase along the list. */
  predicate IdsAscending(bs: seq<Book>) {
    forall i, j :: 0 <= i < j < |bs| ==> bs[i].id < bs[j].id
  }

  /** Filtering keeps catalogue order: ascending ids stay ascending. */
  lemma {:induction false} FilterKeepsOrder(bs: seq<Book>, field: SearchField, term: string)
    requires IdsAscending(bs)
    ensures IdsAscending(Filter(bs, field, term))
  {
    if bs != [] {
      var front, last := bs[..|bs| - 1], bs[|bs| - 1];
      assert IdsAscending(front);
      FilterKeepsOrder(front, field, term);
      FilterMembers(front, field, term);
      var r := Filter(front, field, term);
      forall x | x in r ensures x.id < last.id {
        var k :| 0 <= k < |front| && front[k] == x;
      }
    }
  }

  /** The catalogue lists books by ascending id, so every search result does. */
  lemma SearchKeepsOrder(db: Library, term: string, searchType: string)
    requires db.Valid() && EntriesOk(db.books)
    ensures IdsAscending(SearchResult(db.AllBooks(), term, searchType))
  {
    var bs := db.AllBooks();
    assert forall i :: 0 <= i < |bs| ==> bs[i].id == i + 1;
    if ParseField(searchType).Some? {
      FilterKeepsOrder(bs, ParseField(searchType).value, term);
    }
  }

  /** An unknown search type gives the empty list whatever the catalogue. */
  lemma UnknownTypeFindsNothing(bs: seq<Book>, term: string, searchType: string)
    requires Lower(searchType) != "title" && Lower(searchType) != "author" && Lower(searchType) != "isbn"
    ensures SearchResult(bs, term, searchType) == []
  {
  }

  /** A stored ISBN holding an upper-case letter is never found by ISBN
      search, because the term is lower-cased and the ISBN is not. */
  lemma UpperCaseIsbnNeverFound(b: Book, term: string, k: nat)
    requires k < |b.isbn| && IsUpper(b.isbn[k])
    ensures !Hit(b, Isbn, term)
  {
  }

  /** The empty term is contained in every title and author, so a title or
      author search for it returns the whole catalogue. */
  lemma {:induction false} EmptyTermFindsAll(bs: seq<Book>, field: SearchField)
    requires field != Isbn
    ensures Filter(bs, field, "") == bs
  {
    if bs != [] {
      var last := bs[|bs| - 1];
      EmptyTermFindsAll(bs[..|bs| - 1], field);
      assert Lower("") == "";
      assert Contains(Lower(last.title), "") && Contains(Lower(last.author), "");
      assert bs[..|bs| - 1] + [last] == bs;
    }
  }

  /** search_books_in_catalog over the catalogue in id order. It only reads
      the store. */
  method SearchBooks(db: Library, term: string, searchType: string) returns (result: seq<Book>)
    requires db.Valid()
    ensures result == SearchResult(db.AllBooks(), term, searchType)
  {
    var field := ParseField(searchType);
    if field.None? {
      return [];
    }
    var books := db.AllBooks();
    if field.value == Isbn {
      result := ScanIsbn(books, term);
    } else {
      result := ScanField(books, field.value, term);
    }
  }

  /** The ISBN loop: keep the books whose ISBN equals the lower-cased term. */
  method ScanIsbn(books: seq<Book>, term: string) returns (result: seq<Book>)
    ensures result == Filter(books, Isbn, term)
  {
    var t := Lower(term);
    result := [];
    for i := 0 to |books|
      invariant result == Filter(books[..i], Isbn, term)
    {
      assert books[..i + 1][..i] == books[..i];
      if t == books[i].isbn {
        result := result + [books[i]];
      }
    }
    assert books[..|books|] == books;
  }

  /** The title or author loop: keep the books whose lower-cased field
      contains the lower-cased term. */
  method ScanField(books: seq<Book>, field: SearchField, term: string) returns (result: seq<Book>)
    requires field != Isbn
    ensures result == Filter(books, field, term)
  {
    var t := Lower(term);
    result := [];
    for i := 0 to |books|
      invariant result == Filter(books[..i], field, term)
    {
      assert books[..i + 1][..i] == books[..i];
      var text := if field == Title then books[i].title else books[i].author;
      if Contains(Lower(text), t) {
        result := result + [books[i]];
      }
    }
    assert books[..|books|] == books;
  }
}
