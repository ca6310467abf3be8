/** Loans and returns: the only operations that change a stored book or patron. */
module Circulation {
  import opened Search
  import opened Library

  /** `criar_emprestimo`. The book is looked up before the patron and availability is
      checked last, so the first failing check names the error. On success the book
      becomes unavailable, its id goes to the end of the patron's list, the request is
      stored as the loan record and one "empréstimo" entry is logged. */
  function CreateLoan(s: State, loan: Loan, now: Timestamp): (r: Result<State>)
    ensures r == Err(BookNotFound) <==> loan.bookId !in BookIds(s.books)
    ensures r == Err(PatronNotFound) <==>
              loan.bookId in BookIds(s.books) && loan.patronId !in PatronIds(s.patrons)
    ensures r == Err(Unavailable) <==>
              && loan.bookId in BookIds(s.books) && loan.patronId in PatronIds(s.patrons)
              && forall i :: IsFirst(BookIds(s.books), loan.bookId, i) ==> !s.books[i].available
    ensures r.Err? ==> r.error in {BookNotFound, PatronNotFound, Unavailable}
    ensures r.Ok? <==>
              && loan.bookId in BookIds(s.books) && loan.patronId in PatronIds(s.patrons)
              && forall i :: IsFirst(BookIds(s.books), loan.bookId, i) ==> s.books[i].available
    ensures r.Ok? ==> forall i :: IsFirst(BookIds(s.books), loan.bookId, i) ==>
              s.books[i].available && r.value.books == s.books[i := s.books[i].(available := false)]
    ensures r.Ok? ==> forall k :: IsFirst(PatronIds(s.patrons), loan.patronId, k) ==>
              r.value.patrons == s.patrons[k := s.patrons[k].(borrowed := s.patrons[k].borrowed + [loan.bookId])]
    ensures r.Ok? ==> r.value.loans == s.loans + [loan]
    ensures r.Ok? ==> r.value.logs == s.logs + [LogEntry(LoanCreated, Some(loan.patronId), Some(loan.bookId), now)]
  {
    match IndexOf(BookIds(s.books), loan.bookId)
    case None => Err(BookNotFound)
    case Some(i) =>
      match IndexOf(PatronIds(s.patrons), loan.patronId)
      case None => Err(PatronNotFound)
      case Some(k) =>
        var book := s.books[i];
        var patron := s.patrons[k];
        if !book.available then Err(Unavailable)
        else
          Ok(State(s.books[i := book.(available := false)],
                   s.patrons[k := patron.(borrowed := patron.borrowed + [book.id])],
                   s.loans + [loan],
                   s.logs + [LogEntry(LoanCreated, Some(loan.patronId), Some(loan.bookId), now)]))
  }

  /** The patron's list after giving `bookId` back: the first occurrence is removed
      when there is one, otherwise the list stays as it is. */
  function GiveBack(borrowed: seq<int>, bookId: int): (r: seq<int>)
    ensures bookId !in borrowed ==> r == borrowed
    ensures bookId in borrowed ==> |r| == |borrowed| - 1
    ensures forall i :: IsFirst(borrowed, bookId, i) ==> r == borrowed[..i] + borrowed[i + 1..]
    ensures multiset(r) == multiset(borrowed) - multiset{bookId}
  {
    if bookId in borrowed then RemoveFirst(borrowed, bookId) else borrowed
  }

  /** `devolver_livro`. Checks, in order: the book exists, the patron exists, some loan
      record (current or long returned) pairs them, and the book is out. On success the
      book becomes available, the patron gives the id back, the loan records stay as
      they are and one "devolução" entry is logged. */
  function ReturnBook(s: State, ret: Return, now: Timestamp): (r: Result<State>)
    ensures r == Err(BookNotFound) <==> ret.bookId !in BookIds(s.books)
    ensures r == Err(PatronNotFound) <==>
              ret.bookId in BookIds(s.books) && ret.patronId !in PatronIds(s.patrons)
    ensures r == Err(LoanNotFound) <==>
              && ret.bookId in BookIds(s.books) && ret.patronId in PatronIds(s.patrons)
              && (ret.bookId, ret.patronId) !in LoanKeys(s.loans)
    ensures r == Err(AlreadyAvailable) <==>
              && ret.bookId in BookIds(s.books) && ret.patronId in PatronIds(s.patrons)
              && (ret.bookId, ret.patronId) in LoanKeys(s.loans)
              && forall i :: IsFirst(BookIds(s.books), ret.bookId, i) ==> s.books[i].available
    ensures r.Err? ==> r.error in {BookNotFound, PatronNotFound, LoanNotFound, AlreadyAvailable}
    ensures r.Ok? <==>
              && ret.bookId in BookIds(s.books) && ret.patronId in PatronIds(s.patrons)
              && (ret.bookId, ret.patronId) in LoanKeys(s.loans)
              && forall i :: IsFirst(BookIds(s.books), ret.bookId, i) ==> !s.books[i].available
    ensures r.Ok? ==> forall i :: IsFirst(BookIds(s.books), ret.bookId, i) ==>
              !s.books[i].available && r.value.books == s.books[i := s.books[i].(available := true)]
    ensures r.Ok? ==> forall k :: IsFirst(PatronIds(s.patrons), ret.patronId, k) ==>
              r.value.patrons == s.patrons[k := s.patrons[k].(borrowed := GiveBack(s.patrons[k].borrowed, ret.bookId))]
    ensures r.Ok? ==> r.value.loans == s.loans
    ensures r.Ok? ==> r.value.logs == s.logs + [LogEntry(BookReturned, Some(ret.patronId), Some(ret.bookId), now)]
  {
    match IndexOf(BookIds(s.books), ret.bookId)
    case None => Err(BookNotFound)
    case Some(i) =>
      match IndexOf(PatronIds(s.patrons), ret.patronId)
      case None => Err(PatronNotFound)
      case Some(k) =>
        match IndexOf(LoanKeys(s.loans), (ret.bookId, ret.patronId))
        case None => Err(LoanNotFound)
        case Some(_) =>
          var book := s.books[i];
          var patron := s.patrons[k];
          if book.available then Err(AlreadyAvailable)
          else
            Ok(s.(books := s.books[i := book.(available := true)],
                  patrons := s.patrons[k := patron.(borrowed := GiveBack(patron.borrowed, ret.bookId))],
                  logs := s.logs + [LogEntry(BookReturned, Some(ret.patronId), Some(ret.bookId), now)]))
  }

  /** The books of `books`, in their order, whose id occurs in `ids`. */
  function Borrowed(books: seq<Book>, ids: seq<int>): (r: seq<Book>)
    ensures |r| <= |books|
    ensures forall b :: b in r <==> b in books && b.id in ids
  {
    if |books| == 0 then []
    else
      assert books == [books[0]] + books[1..];
      (if books[0].id in ids then [books[0]] else []) + Borrowed(books[1..], ids)
  }

  /** `listar_livros_emprestados`: the books a known patron holds, in registration order. */
  function BorrowedBooks(s: State, patronId: int): (r: Result<seq<Book>>)
    ensures r.Err? <==> patronId !in PatronIds(s.patrons)
    ensures r.Err? ==> r.error == PatronNotFound
    ensures r.Ok? ==> forall k :: IsFirst(PatronIds(s.patrons), patronId, k) ==>
              && (forall b :: b in r.value <==> b in s.books && b.id in s.patrons[k].borrowed)
              && exists idx :: SelectsInOrder(r.value, s.books, s.patrons[k].borrowed, idx)
  {
    match IndexOf(PatronIds(s.patrons), patronId)
    case None => Err(PatronNotFound)
    case Some(k) =>
      BorrowedIsOrderedSelection(s.books, s.patrons[k].borrowed);
      Ok(Borrowed(s.books, s.patrons[k].borrowed))
  }

  /** `idx` lists, in increasing order, exactly the positions of `books` whose id occurs
      in `ids`, and `r` holds the books at those positions. */
  ghost predicate SelectsInOrder(r: seq<Book>, books: seq<Book>, ids: seq<int>, idx: seq<int>) {
    && |idx| == |r|
    && (forall j :: 0 <= j < |idx| ==> 0 <= idx[j] < |books| && r[j] == books[idx[j]])
    && (forall j, j' :: 0 <= j < j' < |idx| ==> idx[j] < idx[j'])
    && (forall i :: 0 <= i < |books| ==> (i in idx <==> books[i].id in ids))
  }

  /** The borrowed-books listing keeps registration order and repeats a book once per
      catalog position: it is the subsequence of `books` picked out by `ids`. */
  lemma {:induction false} BorrowedIsOrderedSelection(books: seq<Book>, ids: seq<int>)
    ensures exists idx :: SelectsInOrder(Borrowed(books, ids), books, ids, idx)
  {
    if |books| == 0 {
      assert Borrowed(books, ids) == [];
      assert SelectsInOrder([], books, ids, []);
    } else {
      BorrowedIsOrderedSelection(books[1..], ids);
      var idx' :| SelectsInOrder(Borrowed(books[1..], ids), books[1..], ids, idx');
      var idx := SelectionStep(books, ids, Borrowed(books[1..], ids), idx');
      assert Borrowed(books, ids) == (if books[0].id in ids then [books[0]] else []) + Borrowed(books[1..], ids);
    }
  }

  /** Extends a selection from the tail of `books` to all of `books`. */
  lemma SelectionStep(books: seq<Book>, ids: seq<int>, tail: seq<Book>, idx': seq<int>) returns (idx: seq<int>)
    requires |books| > 0 && SelectsInOrder(tail, books[1..], ids, idx')
    ensures SelectsInOrder((if books[0].id in ids then [books[0]] else []) + tail, books, ids, idx)
  {
    ShiftedSelection(books, ids, tail, idx');
    if books[0].id in ids {
      idx := SelectHead(books, ids, tail, Shift(idx'));
    } else {
      idx := Shift(idx');
      SkipHead(books, ids, tail, idx);
    }
  }

  /** The shape ShiftedSelection establishes: `sh` selects `tail` from `books`,
      leaving position 0 aside. */
  ghost predicate SelectsFromSecond(tail: seq<Book>, books: seq<Book>, ids: seq<int>, sh: seq<int>) {
    && |sh| == |tail|
    && (forall j :: 0 <= j < |sh| ==> 1 <= sh[j] < |books| && tail[j] == books[sh[j]])
    && (forall j, j' :: 0 <= j < j' < |sh| ==> sh[j] < sh[j'])
    && (forall i :: 1 <= i < |books| ==> (i in sh <==> books[i].id in ids))
  }

  /** The case where the first book is selected too. */
  lemma SelectHead(books: seq<Book>, ids: seq<int>, tail: seq<Book>, sh: seq<int>) returns (idx: seq<int>)
    requires |books| > 0 && books[0].id in ids && SelectsFromSecond(tail, books, ids, sh)
    ensures SelectsInOrder([books[0]] + tail, books, ids, idx)
  {
    idx := [0] + sh;
    var r := [books[0]] + tail;
    forall j | 0 <= j < |idx|
      ensures 0 <= idx[j] < |books| && r[j] == books[idx[j]]
    {
      if j > 0 {
        assert idx[j] == sh[j - 1] && r[j] == tail[j - 1];
      }
    }
    forall j, j' | 0 <= j < j' < |idx|
      ensures idx[j] < idx[j']
    {
      assert idx[j'] == sh[j' - 1];
      if j > 0 {
        assert idx[j] == sh[j - 1];
      }
    }
    forall i | 0 <= i < |books|
      ensures i in idx <==> books[i].id in ids
    {
      if i > 0 {
        assert i in idx <==> i in sh;
      }
    }
  }

  /** The case where the first book is left out. */
  lemma SkipHead(books: seq<Book>, ids: seq<int>, tail: seq<Book>, sh: seq<int>)
    requires |books| > 0 && books[0].id !in ids && SelectsFromSecond(tail, books, ids, sh)
    ensures SelectsInOrder([] + tail, books, ids, sh)
  {
    assert [] + tail == tail;
    forall i | 0 <= i < |books|
      ensures i in sh <==> books[i].id in ids
    {
      if i == 0 {
        assert forall j :: 0 <= j < |sh| ==> sh[j] != 0;
      }
    }
  }

  /** Every position moved one place right. */
  function Shift(idx: seq<int>): (r: seq<int>)
    ensures |r| == |idx| && forall j :: 0 <= j < |idx| ==> r[j] == idx[j] + 1
  {
    seq(|idx|, j requires 0 <= j < |idx| => idx[j] + 1)
  }

  /** A selection of the tail of `books`, shifted, selects the same books within
      `books`, except possibly the first. */
  lemma ShiftedSelection(books: seq<Book>, ids: seq<int>, tail: seq<Book>, idx': seq<int>)
    requires |books| > 0 && SelectsInOrder(tail, books[1..], ids, idx')
    ensures SelectsFromSecond(tail, books, ids, Shift(idx'))
  {
    var sh := Shift(idx');
    forall i | 1 <= i < |books|
      ensures i in sh <==> books[i].id in ids
    {
      assert books[i] == books[1..][i - 1];
      if i - 1 in idx' {
        var j :| 0 <= j < |idx'| && idx'[j] == i - 1;
        assert sh[j] == i;
      }
    }
  }

  /** A loan followed by the matching return always succeeds. It restores the catalog
      and the patron's holdings (as a multiset; exactly, when the book was not already
      in the patron's list), keeps the new loan record and logs two entries. */
  lemma LoanThenReturn(s: State, loan: Loan, t1: Timestamp, back: Timestamp, t2: Timestamp)
    requires CreateLoan(s, loan, t1).Ok?
    ensures var r := ReturnBook(CreateLoan(s, loan, t1).value, Return(loan.patronId, loan.bookId, back), t2);
            && r.Ok?
            && r.value.books == s.books
            && r.value.loans == s.loans + [loan]
            && |r.value.logs| == |s.logs| + 2
            && |r.value.patrons| == |s.patrons|
            && forall k :: IsFirst(PatronIds(s.patrons), loan.patronId, k) ==>
                 && multiset(r.value.patrons[k].borrowed) == multiset(s.patrons[k].borrowed)
                 && (loan.bookId !in s.patrons[k].borrowed ==> r.value.patrons == s.patrons)
  {
    var s1 := CreateLoan(s, loan, t1).value;
    var ret := Return(loan.patronId, loan.bookId, back);
    var i, k := LoanPositions(s, loan, t1);
    var s2 := ReturnAfterLoan(s, loan, t1, back, t2, i, k);
    UndoLoan(s, loan.bookId, loan.patronId, i, k, s2);
  }

  /** Flipping a book's flag back and giving back the id just appended restores the
      catalog, and the patron's holdings as a multiset, or exactly when the id was new. */
  lemma UndoLoan(s: State, bookId: int, patronId: int, i: nat, k: nat, s2: State)
    requires i < |s.books| && s.books[i].available
    requires IsFirst(PatronIds(s.patrons), patronId, k)
    requires s2.books == s.books[i := s.books[i].(available := true)]
    requires s2.patrons == s.patrons[k := s.patrons[k].(borrowed := GiveBack(s.patrons[k].borrowed + [bookId], bookId))]
    ensures s2.books == s.books
    ensures |s2.patrons| == |s.patrons|
    ensures forall k' :: IsFirst(PatronIds(s.patrons), patronId, k') ==>
              && multiset(s2.patrons[k'].borrowed) == multiset(s.patrons[k'].borrowed)
              && (bookId !in s.patrons[k'].borrowed ==> s2.patrons == s.patrons)
  {
    assert s.books[i].(available := true) == s.books[i];
    GiveBackAppended(s.patrons[k].borrowed, bookId);
    if bookId !in s.patrons[k].borrowed {
      assert s2.patrons[k] == s.patrons[k];
    }
  }

  /** Giving back an id right after appending it restores the multiset of ids, and the
      list itself when the id was not there before. */
  lemma GiveBackAppended(held: seq<int>, bookId: int)
    ensures multiset(GiveBack(held + [bookId], bookId)) == multiset(held)
    ensures bookId !in held ==> GiveBack(held + [bookId], bookId) == held
  {
    assert multiset(held + [bookId]) == multiset(held) + multiset{bookId};
    if bookId !in held {
      RemoveAppended(held, bookId);
    }
  }

  /** Where a successful loan acts: the positions its two scans stop at. */
  lemma LoanPositions(s: State, loan: Loan, t: Timestamp) returns (i: nat, k: nat)
    requires CreateLoan(s, loan, t).Ok?
    ensures IsFirst(BookIds(s.books), loan.bookId, i) && IsFirst(PatronIds(s.patrons), loan.patronId, k)
    ensures s.books[i].available
    ensures CreateLoan(s, loan, t).value ==
              State(s.books[i := s.books[i].(available := false)],
                    s.patrons[k := s.patrons[k].(borrowed := s.patrons[k].borrowed + [loan.bookId])],
                    s.loans + [loan],
                    s.logs + [LogEntry(LoanCreated, Some(loan.patronId), Some(loan.bookId), t)])
  {
    i := IndexOf(BookIds(s.books), loan.bookId).value;
    k := IndexOf(PatronIds(s.patrons), loan.patronId).value;
  }

  /** The return that follows a loan passes every check and undoes the loan's changes
      at the same two positions. */
  lemma ReturnAfterLoan(s: State, loan: Loan, t1: Timestamp, back: Timestamp, t2: Timestamp, i: nat, k: nat)
      returns (s2: State)
    requires CreateLoan(s, loan, t1).Ok?
    requires IsFirst(BookIds(s.books), loan.bookId, i) && IsFirst(PatronIds(s.patrons), loan.patronId, k)
    requires s.books[i].available
    requires CreateLoan(s, loan, t1).value ==
               State(s.books[i := s.books[i].(available := false)],
                     s.patrons[k := s.patrons[k].(borrowed := s.patrons[k].borrowed + [loan.bookId])],
                     s.loans + [loan],
                     s.logs + [LogEntry(LoanCreated, Some(loan.patronId), Some(loan.bookId), t1)])
    ensures var r := ReturnBook(CreateLoan(s, loan, t1).value, Return(loan.patronId, loan.bookId, back), t2);
            r.Ok? && r.value == s2
    ensures s2.books == s.books[i := s.books[i].(available := true)]
    ensures s2.patrons == s.patrons[k := s.patrons[k].(borrowed := GiveBack(s.patrons[k].borrowed + [loan.bookId], loan.bookId))]
    ensures s2.loans == s.loans + [loan]
    ensures |s2.logs| == |s.logs| + 2
  {
    var s1 := CreateLoan(s, loan, t1).value;
    var ret := Return(loan.patronId, loan.bookId, back);
    LoanKeepsIds(s, loan, t1);
    assert IsFirst(BookIds(s1.books), loan.bookId, i);
    assert IsFirst(PatronIds(s1.patrons), loan.patronId, k);
    assert LoanKeys(s1.loans)[|s.loans|] == (ret.bookId, ret.patronId);
    var r := ReturnBook(s1, ret, t2);
    assert r.Ok?;
    s2 := r.value;
  }

  /** A second loan of a book that was just lent fails, whoever asks for it. */
  lemma LoanedBookIsUnavailable(s: State, loan: Loan, t1: Timestamp, again: Loan, t2: Timestamp)
    requires CreateLoan(s, loan, t1).Ok?
    requires again.bookId == loan.bookId && again.patronId in PatronIds(s.patrons)
    ensures CreateLoan(CreateLoan(s, loan, t1).value, again, t2) == Err(Unavailable)
  {
    LoanKeepsIds(s, loan, t1);
  }

  /** Returning the same book twice: the second return fails as already available. */
  lemma ReturnedBookIsAvailable(s: State, ret: Return, t1: Timestamp, again: Return, t2: Timestamp)
    requires ReturnBook(s, ret, t1).Ok?
    requires again.bookId == ret.bookId && again.patronId == ret.patronId
    ensures ReturnBook(ReturnBook(s, ret, t1).value, again, t2) == Err(AlreadyAvailable)
  {
    ReturnKeepsIds(s, ret, t1);
  }

  /** After a loan the book shows up in the borrower's borrowed-books listing. */
  lemma LoanedBookIsListed(s: State, loan: Loan, t: Timestamp)
    requires CreateLoan(s, loan, t).Ok?
    ensures var s1 := CreateLoan(s, loan, t).value;
            BorrowedBooks(s1, loan.patronId).Ok? &&
            forall i :: IsFirst(BookIds(s.books), loan.bookId, i) ==> s1.books[i] in BorrowedBooks(s1, loan.patronId).value
  {
    LoanKeepsIds(s, loan, t);
  }

  /** A loan leaves every id where it was: it never adds, drops or reorders books or
      patrons. */
  lemma LoanKeepsIds(s: State, loan: Loan, t: Timestamp)
    requires CreateLoan(s, loan, t).Ok?
    ensures BookIds(CreateLoan(s, loan, t).value.books) == BookIds(s.books)
    ensures PatronIds(CreateLoan(s, loan, t).value.patrons) == PatronIds(s.patrons)
  {
    var i := IndexOf(BookIds(s.books), loan.bookId).value;
    var k := IndexOf(PatronIds(s.patrons), loan.patronId).value;
    UpdateKeepsBookIds(s.books, i, s.books[i].(available := false));
    UpdateKeepsPatronIds(s.patrons, k, s.patrons[k].(borrowed := s.patrons[k].borrowed + [loan.bookId]));
  }

  /** A return leaves every id where it was. */
  lemma ReturnKeepsIds(s: State, ret: Return, t: Timestamp)
    requires ReturnBook(s, ret, t).Ok?
    ensures BookIds(ReturnBook(s, ret, t).value.books) == BookIds(s.books)
    ensures PatronIds(ReturnBook(s, ret, t).value.patrons) == PatronIds(s.patrons)
  {
    var i := IndexOf(BookIds(s.books), ret.bookId).value;
    var k := IndexOf(PatronIds(s.patrons), ret.patronId).value;
    UpdateKeepsBookIds(s.books, i, s.books[i].(available := true));
    UpdateKeepsPatronIds(s.patrons, k, s.patrons[k].(borrowed := GiveBack(s.patrons[k].borrowed, ret.bookId)));
  }

  /** A return is accepted on any loan record of the pair, even one returned long ago:
      a former borrower can return a book now held by another patron, who keeps it in
      their list while the book is marked available again. */
  lemma ReturnByFormerBorrower(s: State, ret: Return, holder: nat, t: Timestamp)
    requires ret.bookId in BookIds(s.books) && ret.patronId in PatronIds(s.patrons)
    requires (ret.bookId, ret.patronId) in LoanKeys(s.loans)
    requires forall i :: IsFirst(BookIds(s.books), ret.bookId, i) ==> !s.books[i].available
    requires holder < |s.patrons| && s.patrons[holder].id != ret.patronId
    requires ret.bookId in s.patrons[holder].borrowed
    ensures ReturnBook(s, ret, t).Ok?
    ensures var s1 := ReturnBook(s, ret, t).value;
            && ret.bookId in s1.patrons[holder].borrowed
            && forall i :: IsFirst(BookIds(s1.books), ret.bookId, i) ==> s1.books[i].available
  {
    var k := IndexOf(PatronIds(s.patrons), ret.patronId).value;
    assert k != holder;
    ReturnKeepsIds(s, ret, t);
  }
}
