/** Registration of books and patrons, and lookup of a book by title. */
module Catalog {
  import opened Search
  import opened Library

  /** `criar_livro`: a book whose id is not yet taken goes to the end of the catalog,
      followed by one "cadastro_livro" log entry; a taken id is refused. */
  function RegisterBook(s: State, book: Book, now: Timestamp): (r: Result<State>)
    ensures r.Err? <==> book.id in BookIds(s.books)
    ensures r.Err? ==> r.error == DuplicateId
    ensures r.Ok? ==> r.value.books == s.books + [book]
    ensures r.Ok? ==> r.value.logs == s.logs + [LogEntry(BookRegistered, None, Some(book.id), now)]
    ensures r.Ok? ==> r.value.patrons == s.patrons && r.value.loans == s.loans
  {
    match IndexOf(BookIds(s.books), book.id)
    case Some(_) => Err(DuplicateId)
    case None =>
      Ok(s.(books := s.books + [book],
            logs := s.logs + [LogEntry(BookRegistered, None, Some(book.id), now)]))
  }

  /** `criar_usuario`: the same protocol for patrons, logged as "cadastro_usuario". */
  function RegisterPatron(s: State, patron: Patron, now: Timestamp): (r: Result<State>)
    ensures r.Err? <==> patron.id in PatronIds(s.patrons)
    ensures r.Err? ==> r.error == DuplicateId
    ensures r.Ok? ==> r.value.patrons == s.patrons + [patron]
    ensures r.Ok? ==> r.value.logs == s.logs + [LogEntry(PatronRegistered, Some(patron.id), None, now)]
    ensures r.Ok? ==> r.value.books == s.books && r.value.loans == s.loans
  {
    match IndexOf(PatronIds(s.patrons), patron.id)
    case Some(_) => Err(DuplicateId)
    case None =>
      Ok(s.(patrons := s.patrons + [patron],
            logs := s.logs + [LogEntry(PatronRegistered, Some(patron.id), None, now)]))
  }

  /** `obter_livro`: the earliest-registered book whose title is exactly `title`. */
  function FindByTitle(s: State, title: string): (r: Result<Book>)
    ensures r.Ok? <==> title in Titles(s.books)
    ensures r.Err? ==> r.error == BookNotFound
    ensures r.Ok? ==> r.value.title == title && r.value in s.books
    ensures r.Ok? ==> forall i :: IsFirst(Titles(s.books), title, i) ==> r.value == s.books[i]
  {
    match IndexOf(Titles(s.books), title)
    case None => Err(BookNotFound)
    case Some(i) => Ok(s.books[i])
  }

  /** Registering a book keeps book ids pairwise different, and the new id is the
      last one. */
  lemma RegisterBookKeepsIdsDistinct(s: State, book: Book, now: Timestamp)
    requires Distinct(BookIds(s.books))
    requires RegisterBook(s, book, now).Ok?
    ensures BookIds(RegisterBook(s, book, now).value.books) == BookIds(s.books) + [book.id]
    ensures Distinct(BookIds(RegisterBook(s, book, now).value.books))
  {
    var t := RegisterBook(s, book, now).value;
    assert BookIds(t.books) == BookIds(s.books) + [book.id];
    DistinctAppend(BookIds(s.books), book.id);
  }

  /** Registering a patron keeps patron ids pairwise different, and the new id is
      the last one. */
  lemma RegisterPatronKeepsIdsDistinct(s: State, patron: Patron, now: Timestamp)
    requires Distinct(PatronIds(s.patrons))
    requires RegisterPatron(s, patron, now).Ok?
    ensures PatronIds(RegisterPatron(s, patron, now).value.patrons) == PatronIds(s.patrons) + [patron.id]
    ensures Distinct(PatronIds(RegisterPatron(s, patron, now).value.patrons))
  {
    var t := RegisterPatron(s, patron, now).value;
    assert PatronIds(t.patrons) == PatronIds(s.patrons) + [patron.id];
    DistinctAppend(PatronIds(s.patrons), patron.id);
  }

  /** A registered book can be found by its title right away; it is the one just
      registered unless an earlier book has the same title. */
  lemma RegisteredBookIsFound(s: State, book: Book, now: Timestamp)
    requires RegisterBook(s, book, now).Ok?
    ensures FindByTitle(RegisterBook(s, book, now).value, book.title).Ok?
    ensures book.title !in Titles(s.books) ==>
              FindByTitle(RegisterBook(s, book, now).value, book.title) == Ok(book)
  {
    var t := RegisterBook(s, book, now).value;
    assert Titles(t.books) == Titles(s.books) + [book.title];
    if book.title !in Titles(s.books) {
      assert IsFirst(Titles(t.books), book.title, |s.books|);
    }
  }
}
