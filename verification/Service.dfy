/** The service as a whole: a sequence of mutating requests applied one at a time to
    the process-wide store. A refused request raises before touching anything, so the
    store it leaves behind is the one it found. */
module Service {
  import opened Search
  import opened Library
  import opened Catalog
  import opened Circulation

  /** The four mutating endpoints and their request bodies. */
  datatype Request =
    | RegisterBookReq(book: Book)        // POST /livros
    | RegisterPatronReq(patron: Patron)  // POST /usuarios
    | LoanReq(loan: Loan)                // POST /emprestimos
    | ReturnReq(ret: Return)             // PUT /emprestimos/devolver

  /** A request together with the server clock reading its log entry receives. */
  datatype Call = Call(request: Request, now: Timestamp)

  /** The audit entry a call leaves when it succeeds. */
  function AuditEntry(c: Call): LogEntry {
    match c.request
    case RegisterBookReq(b) => LogEntry(BookRegistered, None, Some(b.id), c.now)
    case RegisterPatronReq(p) => LogEntry(PatronRegistered, Some(p.id), None, c.now)
    case LoanReq(l) => LogEntry(LoanCreated, Some(l.patronId), Some(l.bookId), c.now)
    case ReturnReq(d) => LogEntry(BookReturned, Some(d.patronId), Some(d.bookId), c.now)
  }

  /** Routes a call to its operation. */
  function Dispatch(s: State, c: Call): Result<State> {
    match c.request
    case RegisterBookReq(b) => RegisterBook(s, b, c.now)
    case RegisterPatronReq(p) => RegisterPatron(s, p, c.now)
    case LoanReq(l) => CreateLoan(s, l, c.now)
    case ReturnReq(d) => ReturnBook(s, d, c.now)
  }

  /** The store after a call: the new one on success, the old one on refusal. */
  function Apply(s: State, c: Call): State {
    match Dispatch(s, c)
    case Ok(t) => t
    case Err(_) => s
  }

  /** The store after a sequence of calls. */
  function Run(s: State, calls: seq<Call>): State
    decreases |calls|
  {
    if |calls| == 0 then s else Run(Apply(s, calls[0]), calls[1..])
  }

  /** The calls of a sequence that the service accepts, in order. */
  function Accepted(s: State, calls: seq<Call>): seq<Call>
    decreases |calls|
  {
    if |calls| == 0 then []
    else if Dispatch(s, calls[0]).Ok? then [calls[0]] + Accepted(Apply(s, calls[0]), calls[1..])
    else Accepted(s, calls[1..])
  }

  /** The audit entries of a sequence of calls. */
  function AuditTrail(calls: seq<Call>): seq<LogEntry> {
    seq(|calls|, j requires 0 <= j < |calls| => AuditEntry(calls[j]))
  }

  /** One accepted call: it logs exactly its own audit entry, only appends loan records,
      never drops or reorders a book or patron id, and keeps ids pairwise different. */
  lemma DispatchStep(s: State, c: Call)
    ensures Dispatch(s, c).Ok? ==>
              && Dispatch(s, c).value.logs == s.logs + [AuditEntry(c)]
              && s.loans <= Dispatch(s, c).value.loans
              && BookIds(s.books) <= BookIds(Dispatch(s, c).value.books)
              && PatronIds(s.patrons) <= PatronIds(Dispatch(s, c).value.patrons)
              && (IdsDistinct(s) ==> IdsDistinct(Dispatch(s, c).value))
  {
    if Dispatch(s, c).Ok? {
      var t := Dispatch(s, c).value;
      match c.request
      case RegisterBookReq(b) =>
        assert BookIds(t.books) == BookIds(s.books) + [b.id];
        if IdsDistinct(s) { RegisterBookKeepsIdsDistinct(s, b, c.now); }
      case RegisterPatronReq(p) =>
        assert PatronIds(t.patrons) == PatronIds(s.patrons) + [p.id];
        if IdsDistinct(s) { RegisterPatronKeepsIdsDistinct(s, p, c.now); }
      case LoanReq(l) =>
        LoanKeepsIds(s, l, c.now);
      case ReturnReq(d) =>
        ReturnKeepsIds(s, d, c.now);
    }
  }

  /** Every state the service moves through keeps book ids and patron ids pairwise
      different, whatever was asked of it. */
  lemma {:induction false} RunKeepsIdsDistinct(s: State, calls: seq<Call>)
    requires IdsDistinct(s)
    ensures IdsDistinct(Run(s, calls))
    decreases |calls|
  {
    if |calls| > 0 {
      DispatchStep(s, calls[0]);
      RunKeepsIdsDistinct(Apply(s, calls[0]), calls[1..]);
    }
  }

  /** From an empty store, ids stay pairwise different. */
  lemma {:induction false} ReachableIdsDistinct(calls: seq<Call>)
    ensures IdsDistinct(Run(Initial, calls))
  {
    RunKeepsIdsDistinct(Initial, calls);
  }

  /** Nothing is ever deleted: loan records and log entries are only appended, and
      books and patrons stay where they were registered. */
  lemma {:induction false} RunOnlyAppends(s: State, calls: seq<Call>)
    ensures s.loans <= Run(s, calls).loans
    ensures s.logs <= Run(s, calls).logs
    ensures BookIds(s.books) <= BookIds(Run(s, calls).books)
    ensures PatronIds(s.patrons) <= PatronIds(Run(s, calls).patrons)
    decreases |calls|
  {
    if |calls| > 0 {
      DispatchStep(s, calls[0]);
      RunOnlyAppends(Apply(s, calls[0]), calls[1..]);
    }
  }

  /** The audit log records every accepted call, in order, and nothing else. */
  lemma {:induction false} RunLogsAcceptedCalls(s: State, calls: seq<Call>)
    ensures Run(s, calls).logs == s.logs + AuditTrail(Accepted(s, calls))
    decreases |calls|
  {
    if |calls| > 0 {
      var c := calls[0];
      var s1 := Apply(s, c);
      RunLogsAcceptedCalls(s1, calls[1..]);
      DispatchStep(s, c);
      if Dispatch(s, c).Ok? {
        assert AuditTrail([c] + Accepted(s1, calls[1..])) == [AuditEntry(c)] + AuditTrail(Accepted(s1, calls[1..]));
      }
    } else {
      assert AuditTrail([]) == [];
    }
  }

  /** The walk-through of the service: register "Dune" and Alice, lend the book, fail
      to lend it again, return it, fail to return it again; the title lookup finds the
      book and misses an unknown title. */
  lemma DuneWalkThrough(t: Timestamp)
    ensures var dune := Book(1, "Dune", "Frank Herbert", 1965, true);
            var alice := Patron(1, "Alice", []);
            var s1 := RegisterBook(Initial, dune, t).value;
            var s2 := RegisterPatron(s1, alice, t).value;
            var loan := Loan(t, 1, 1);
            var s3 := CreateLoan(s2, loan, t);
            && RegisterBook(Initial, dune, t).Ok?
            && RegisterPatron(s1, alice, t).Ok?
            && FindByTitle(s2, "Dune") == Ok(dune)
            && FindByTitle(s2, "Unknown") == Err(BookNotFound)
            && s3.Ok? && !s3.value.books[0].available
            && CreateLoan(s3.value, loan, t) == Err(Unavailable)
            && var s4 := ReturnBook(s3.value, Return(1, 1, t), t);
               && s4.Ok? && s4.value.books == [dune]
               && ReturnBook(s4.value, Return(1, 1, t), t) == Err(AlreadyAvailable)
  {
    var dune := Book(1, "Dune", "Frank Herbert", 1965, true);
    var alice := Patron(1, "Alice", []);
    var s1 := RegisterBook(Initial, dune, t).value;
    var s2 := RegisterPatron(s1, alice, t).value;
    assert Titles(s2.books) == ["Dune"];
    assert IsFirst(Titles(s2.books), "Dune", 0);
    var loan := Loan(t, 1, 1);
    LoanThenReturn(s2, loan, t, t, t);
    LoanedBookIsUnavailable(s2, loan, t, loan, t);
    ReturnedBookIsAvailable(CreateLoan(s2, loan, t).value, Return(1, 1, t), t, Return(1, 1, t), t);
  }
}
