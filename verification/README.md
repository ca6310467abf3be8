# Library catalog and circulation, modelled in Dafny

This project models the core of a small library service (`livraria-fastapi-pos`):
- a catalog of books (`Livro`) and patrons (`Usuario`);
- loans (`Emprestimo`) and returns (`Devolucao`);
- an audit log (`Log`).

The service keeps four process-wide lists: `livros`, `usuarios`, `emprestimos` and
`logs`. Here they are one immutable `Library.State` record of four sequences. Each
mutating endpoint is a pure function that returns either `Err(e)` or `Ok(newState)`.
A refused request carries no state, so "nothing changes on failure" holds by
construction. The source runs all of its checks before its first mutation, so this
matches it. `Service.Apply` keeps the old store when a call is refused.

Files and modules:
- `Search.dfy` (`Search`): the first-match scan (`for … if … break`), Python's
  `list.remove`, and pairwise distinctness.
- `Library.dfy` (`Library`): the entities, the store, the error kinds, and the
  projections `BookIds`, `Titles`, `PatronIds` and `LoanKeys` that the scans compare against.
- `Catalog.dfy` (`Catalog`): `criar_livro`, `criar_usuario` and `obter_livro`.
- `Circulation.dfy` (`Circulation`): `criar_emprestimo`, `devolver_livro`,
  `listar_livros_emprestados`, and the lemmas relating them.
- `Service.dfy` (`Service`): sequences of requests. It proves that ids stay distinct,
  that nothing is deleted, and that the log records exactly the accepted calls.

Every lookup finds the first match in insertion order. The operations do not assume
that ids are unique. Their contracts name the position where the scan stops
(`Search.IsFirst`).

## Model

| member | source | states |
|---|---|---|
| Search.IndexOf | main.py:93-101 | The scan stops at the first position holding the key. It finds nothing exactly when the key does not occur. |
| Search.RemoveFirst | main.py:159-160 | `list.remove(x)` deletes only the first occurrence: the result is the list with that one position cut out, and exactly one copy of `x` leaves the multiset. |
| Catalog.RegisterBook | main.py:33-50 | A taken book id gives `DuplicateId`, and only a taken id does. Otherwise the book is appended at the end and one `cadastro_livro` entry with that book id is appended to the log. Patrons and loans are untouched. |
| Catalog.RegisterPatron | main.py:61-78 | The same protocol for patrons: `DuplicateId` exactly when the id is taken. Otherwise the patron is appended, plus one `cadastro_usuario` entry. |
| Catalog.FindByTitle | main.py:22-29 | Finds a book exactly when some title matches. The result is the earliest-registered book with that exact title. Otherwise the result is `BookNotFound`. |
| Catalog.RegisterBookKeepsIdsDistinct | main.py:34-40 | Registering a book keeps book ids pairwise distinct. The new id goes last. |
| Catalog.RegisterPatronKeepsIdsDistinct | main.py:62-68 | Registering a patron keeps patron ids pairwise distinct. The new id goes last. |
| Catalog.RegisteredBookIsFound | main.py:22-40 | A just-registered book can be found by its title. It is the result itself unless an earlier book has the same title. |
| Circulation.CreateLoan | main.py:89-124 | Error precedence: `BookNotFound`, then `PatronNotFound`, then `Unavailable`, each stated as an if-and-only-if. No other error occurs, and the loan succeeds exactly when all three checks pass. On success, the first matching book changes only its availability, from true to false. The first matching patron gets the book id appended. The request is stored unchanged as the last loan record. Exactly one `empréstimo` entry is logged. |
| Circulation.GiveBack | main.py:159-160 | Giving a book back cuts out the first occurrence of its id, keeping the order of the rest, when present. Otherwise the list is left unchanged. |
| Circulation.ReturnBook | main.py:128-172 | Error precedence: `BookNotFound`, `PatronNotFound`, `LoanNotFound` (no loan record ever paired the two), then `AlreadyAvailable`. No other error occurs, and the return succeeds exactly when all four checks pass. On success, the first matching book changes only its availability, from false to true. The patron gives the id back. Loan records are unchanged. Exactly one `devolução` entry is logged. |
| Circulation.Borrowed | main.py:188-190 | A book is in the listing exactly when it is in the catalog and its id is in the given list. |
| Circulation.BorrowedBooks | main.py:176-192 | `PatronNotFound` exactly for an unknown patron. Otherwise the listing holds exactly the catalog's books whose id the patron holds, in registration order. |
| Circulation.BorrowedIsOrderedSelection | main.py:188-192 | The listing is the subsequence of the catalog at the strictly increasing positions whose id is held, one entry per catalog position. |
| Circulation.LoanThenReturn | main.py:110-170 | A loan followed by the matching return always succeeds. The catalog is back to its value before the loan. The patron's holdings are the same multiset, and exactly the same list when the book was not already held. The loan record stays, and two log entries are added. |
| Circulation.LoanedBookIsUnavailable | main.py:107-110 | A book just lent cannot be lent again to any known patron: `Unavailable`. |
| Circulation.ReturnedBookIsAvailable | main.py:155-158 | Repeating a successful return gives `AlreadyAvailable`. |
| Circulation.LoanedBookIsListed | main.py:110-111 | After a loan, the lent book appears in the borrower's borrowed-books listing. |
| Circulation.LoanKeepsIds | main.py:110-111 | A loan keeps the exact sequence of book ids and of patron ids. |
| Circulation.ReturnKeepsIds | main.py:158-160 | A return keeps the exact sequence of book ids and of patron ids. |
| Circulation.ReturnByFormerBorrower | main.py:143-160 | Any past loan record of the pair authorises a return. A former borrower can return a book another patron still lists: the book becomes available while the other patron keeps its id. |
| Service.DispatchStep | main.py:33-170 | Each accepted call appends exactly its own audit entry. Loan records are only appended, and book and patron ids are only appended. Distinct ids stay distinct. |
| Service.RunKeepsIdsDistinct | main.py:34-68 | Along any sequence of calls, book ids and patron ids stay pairwise distinct. |
| Service.ReachableIdsDistinct | main.py:8-11 | Every store reachable from the empty lists has pairwise distinct book ids and patron ids. |
| Service.RunOnlyAppends | main.py:8-11 | Along any sequence of calls, loan records and log entries are never removed or changed. Registered books and patrons keep their positions. |
| Service.RunLogsAcceptedCalls | main.py:42-170 | After any sequence of calls, the log is the old log followed by one entry per accepted call, in order. Refused calls add nothing. |
| Service.DuneWalkThrough | main.py:22-170 | A worked run: register book 1 "Dune" and patron 1 "Alice". The title lookup finds "Dune" and misses "Unknown". The loan succeeds and a second loan fails `Unavailable`. The return succeeds and a second return fails `AlreadyAvailable`. |

## Behaviour worth knowing

- A return is accepted when any loan record, even a long-returned one, pairs the
  book and patron (main.py:143-146). It is not limited to the current borrower.
  So "a book is unavailable exactly while it is on loan" and "a patron lists a book
  exactly while holding it" do not hold in general (`Circulation.ReturnByFormerBorrower`).
- Registration stores whatever `disponibilidade` and `livros_emprestados` the caller
  sends (main.py:40, 68). A book can therefore start out unavailable, and a patron can
  start out holding books. For this reason the model proves per-operation facts and
  id distinctness, not a global availability invariant.
- A return removes only the first occurrence of the id from the patron's list
  (main.py:159-160). If the list held the id twice, the id is still listed afterwards.

## Left out

- The list endpoints `listar_livros`, `listar_usuarios`, `listar_emprestimos` and `listar_logs` (main.py:17-18, 56-57, 84-85, 196-197): each returns one field of `Library.State` unchanged, so there is nothing to model beyond the fields.
- FastAPI routing and the status codes: errors are the `Library.Error` datatype. The comments on its constructors give the status and message each becomes.
- Response bodies: registrations and loans echo their request, and a return answers a fixed message. The model returns only the new store.
- pydantic request validation and coercion: models.py is used only for the field lists.
- `Library.Patron`: `livros_emprestados` is an untyped `list` in models.py. It is modelled as a sequence of integers. Elements of other types are not modelled. In Python, `True` and `1.0` compare equal to the id 1, so such elements would count as holding book 1 in the listing (main.py:189). A return of book 1 would also remove them (main.py:159-160).
- `datetime.now()` and request timestamps: `Library.Timestamp` is opaque, and the clock reading is a parameter (`now`). The return's `data_devolucao` is carried but only ever printed.
- The `print` calls (main.py:114, 162) and the f-string `descricao` of log entries: neither feeds back into any decision.
- Concurrency: requests are applied strictly one after another.
- Truthiness tests (`if not livro`): a found pydantic model is always truthy, so each test is exactly "the scan found nothing".
