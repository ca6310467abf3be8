/** The entities of the catalog service and the store that holds them: the four
    process-wide lists `livros`, `usuarios`, `emprestimos` and `logs`, folded into one
    immutable record. */
module Library {
  import opened Search

  /** A `datetime` reading: request timestamps and the server clock's `now()`.
      Nothing in the service inspects it, so it stays opaque. */
  datatype Timestamp = Timestamp(ticks: int)

  /** `Livro`: `available` is `disponibilidade`. */
  datatype Book = Book(id: int, title: string, author: string, year: int, available: bool)

  /** `Usuario`: `borrowed` is `livros_emprestados`, the ids of the books in hand. */
  datatype Patron = Patron(id: int, name: string, borrowed: seq<int>)

  /** `Emprestimo`: a loan request, stored as received once the loan succeeds. */
  datatype Loan = Loan(loanedAt: Timestamp, bookId: int, patronId: int)

  /** `Devolucao`: a return request; it is never stored. */
  datatype Return = Return(patronId: int, bookId: int, returnedAt: Timestamp)

  /** The `tipo` of a log entry: "cadastro_livro", "cadastro_usuario",
      "empréstimo" and "devolução". */
  datatype LogKind = BookRegistered | PatronRegistered | LoanCreated | BookReturned

  /** `Log`, without its free-text description. */
  datatype LogEntry = LogEntry(kind: LogKind, patronId: Option<int>, bookId: Option<int>, timestamp: Timestamp)

  /** The four lists, each in insertion order. */
  datatype State = State(books: seq<Book>, patrons: seq<Patron>, loans: seq<Loan>, logs: seq<LogEntry>)

  /** Every list starts empty when the process starts. */
  const Initial := State([], [], [], [])

  /** Why an operation refused a request (an `HTTPException` in the service). */
  datatype Error =
    | BookNotFound      // 404 "Livro não encontrado."
    | PatronNotFound    // 404 "Usuário não encontrado."
    | LoanNotFound      // 404 "Empréstimo não encontrado."
    | Unavailable       // 400 "Livro indisponível."
    | AlreadyAvailable  // 400 "O livro já está disponível."
    | DuplicateId       // 400 "ID já existe."

  datatype Result<+T> = Ok(value: T) | Err(error: Error)

  /** The ids of `books`, position by position: what the scans by id compare against. */
  function BookIds(books: seq<Book>): seq<int> {
    seq(|books|, i requires 0 <= i < |books| => books[i].id)
  }

  /** The titles of `books`, position by position. */
  function Titles(books: seq<Book>): seq<string> {
    seq(|books|, i requires 0 <= i < |books| => books[i].title)
  }

  /** The ids of `patrons`, position by position. */
  function PatronIds(patrons: seq<Patron>): seq<int> {
    seq(|patrons|, i requires 0 <= i < |patrons| => patrons[i].id)
  }

  /** The (book, patron) pair of each loan record, position by position. */
  function LoanKeys(loans: seq<Loan>): seq<(int, int)> {
    seq(|loans|, i requires 0 <= i < |loans| => (loans[i].bookId, loans[i].patronId))
  }

  /** Book ids and patron ids are each pairwise different. */
  ghost predicate IdsDistinct(s: State) {
    Distinct(BookIds(s.books)) && Distinct(PatronIds(s.patrons))
  }

  /** Changing a book in place, id kept, keeps the catalog's ids. */
  lemma UpdateKeepsBookIds(books: seq<Book>, i: nat, b: Book)
    requires i < |books| && b.id == books[i].id
    ensures BookIds(books[i := b]) == BookIds(books)
  {
    assert forall j :: 0 <= j < |books| ==> BookIds(books[i := b])[j] == BookIds(books)[j];
  }

  /** Changing a patron in place, id kept, keeps the patrons' ids. */
  lemma UpdateKeepsPatronIds(patrons: seq<Patron>, k: nat, p: Patron)
    requires k < |patrons| && p.id == patrons[k].id
    ensures PatronIds(patrons[k := p]) == PatronIds(patrons)
  {
    assert forall j :: 0 <= j < |patrons| ==> PatronIds(patrons[k := p])[j] == PatronIds(patrons)[j];
  }
}
