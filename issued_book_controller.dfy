/** The loan lifecycle: listing loans by role, issuing a copy, returning it with a
    late fine, and the ledger invariant that ties each book's copies on loan to the
    loans still in state Issued. */
module IssuedBookController {
  import opened Types
  import opened Time
  import opened BookController

  /** Currency units charged per started day past the due date. */
  const FinePerDay: int := 5

  /** The fine after a return at `returnDate`: every started day late costs
      FinePerDay; an on-time return keeps the fine the loan already had. */
  function Fine(dueDate: Millis, returnDate: Millis, current: int): (fine: int)
    ensures returnDate <= dueDate ==> fine == current
    ensures returnDate > dueDate ==> fine >= FinePerDay && fine % FinePerDay == 0
    ensures returnDate > dueDate ==>
      (fine / FinePerDay - 1) * DayMs < returnDate - dueDate <= (fine / FinePerDay) * DayMs
  {
    if returnDate > dueDate then
      // the span is positive here, so taking its absolute value changes nothing
      CeilDays(returnDate - dueDate) * FinePerDay
    else
      current
  }

  /** Returning exactly k whole days late costs k times the daily fine. */
  lemma FineForWholeDaysLate(dueDate: Millis, k: int, current: int)
    requires k >= 1
    ensures Fine(dueDate, dueDate + k * DayMs, current) == FinePerDay * k
  {
    CeilDaysOfWholeDays(k);
  }

  /** A partial day late is charged as a full day. */
  lemma FineRoundsPartialDayUp(dueDate: Millis, lateMs: int, current: int)
    requires 0 < lateMs <= DayMs
    ensures Fine(dueDate, dueDate + lateMs, current) == FinePerDay
  {
    CeilDaysUnique(lateMs, 1);
  }

  /** Returning later never lowers the fine. */
  lemma FineMonotone(dueDate: Millis, t1: Millis, t2: Millis, current: int)
    requires dueDate < t1 <= t2
    ensures Fine(dueDate, t1, current) <= Fine(dueDate, t2, current)
  {
    CeilDaysMonotone(t1 - dueDate, t2 - dueDate);
  }

  /** Issued on day d1 and due fourteen days later: three days late costs 15, and a
      return on the due instant costs nothing. */
  lemma FineScenario(d1: Millis)
    ensures Fine(d1 + 14 * DayMs, d1 + 17 * DayMs, 0) == 15
    ensures Fine(d1 + 14 * DayMs, d1 + 14 * DayMs, 0) == 0
    ensures Fine(d1 + 14 * DayMs, d1 + 13 * DayMs, 0) == 0
  {
    FineForWholeDaysLate(d1 + 14 * DayMs, 3, 0);
  }

  /** The record returnBook saves: stamped, marked Returned, fine recomputed. */
  function ReturnedLoan(l: Loan, now: Millis): (r: Loan)
    ensures r.id == l.id && r.bookId == l.bookId && r.userId == l.userId
    ensures r.issueDate == l.issueDate && r.dueDate == l.dueDate
    ensures r.status == Returned && r.returnDate == Some(now)
    ensures now > l.dueDate ==> r.fineAmount >= FinePerDay && r.fineAmount % FinePerDay == 0
    ensures now <= l.dueDate ==> r.fineAmount == l.fineAmount
    ensures r.fineAmount == Fine(l.dueDate, now, l.fineAmount)
  {
    l.(returnDate := Some(now), status := Returned, fineAmount := Fine(l.dueDate, now, l.fineAmount))
  }

  /** The book after a copy is lent. */
  function Lent(b: Book): (r: Book)
    ensures r.availableCopies == b.availableCopies - 1 && r.totalCopies == b.totalCopies
    ensures r.id == b.id && r.name == b.name && r.author == b.author && r.category == b.category
    ensures OnLoan(r) == OnLoan(b) + 1
  {
    b.(availableCopies := b.availableCopies - 1)
  }

  /** The books after a copy of `id` comes back: only that book, if it still exists,
      gains one available copy. */
  function Restocked(books: map<Id, Book>, id: Id): (r: map<Id, Book>)
    ensures r.Keys == books.Keys
    ensures forall k :: k in books && k != id ==> r[k] == books[k]
    ensures id in books ==> r[id] == books[id].(availableCopies := books[id].availableCopies + 1)
  {
    if id in books then books[id := books[id].(availableCopies := books[id].availableCopies + 1)] else books
  }

  /** The loans of book `bookId` still out. */
  function IssuedOf(loans: map<Id, Loan>, bookId: Id): set<Id> {
    set k | k in loans && loans[k].bookId == bookId && loans[k].status == Issued
  }

  /** The ledger invariant: for every book, the copies it counts as on loan are
      exactly its loans in state Issued. */
  ghost predicate Ledger(books: map<Id, Book>, loans: map<Id, Loan>) {
    forall id :: id in books ==> OnLoan(books[id]) == |IssuedOf(loans, id)|
  }

  /** Every book's available count lies between zero and its total. */
  ghost predicate Bounded(books: map<Id, Book>) {
    forall id :: id in books ==> 0 <= books[id].availableCopies <= books[id].totalCopies
  }

  lemma IssuedOfAfterPut(loans: map<Id, Loan>, k: Id, l: Loan, b: Id)
    ensures IssuedOf(loans[k := l], b)
         == (IssuedOf(loans, b) - {k}) + (if l.bookId == b && l.status == Issued then {k} else {})
  {
  }

  /** A new Issued loan adds one to its own book's count and to no other. */
  lemma IssuedCountAfterIssue(loans: map<Id, Loan>, k: Id, l: Loan)
    requires k !in loans && l.status == Issued
    ensures forall b :: |IssuedOf(loans[k := l], b)| == |IssuedOf(loans, b)| + (if b == l.bookId then 1 else 0)
  {
    forall b ensures |IssuedOf(loans[k := l], b)| == |IssuedOf(loans, b)| + (if b == l.bookId then 1 else 0) {
      IssuedOfAfterPut(loans, k, l, b);
      assert k !in IssuedOf(loans, b);
    }
  }

  /** Returning a loan removes it from its book's count if it was still Issued, and
      changes no count otherwise. */
  lemma IssuedCountAfterReturn(loans: map<Id, Loan>, k: Id, now: Millis)
    requires k in loans
    ensures forall b :: |IssuedOf(loans[k := ReturnedLoan(loans[k], now)], b)|
                     == |IssuedOf(loans, b)| - (if b == loans[k].bookId && loans[k].status == Issued then 1 else 0)
  {
    var l := loans[k];
    var l' := ReturnedLoan(l, now);
    forall b ensures |IssuedOf(loans[k := l'], b)|
                  == |IssuedOf(loans, b)| - (if b == l.bookId && l.status == Issued then 1 else 0)
    {
      IssuedOfAfterPut(loans, k, l', b);
      if b == l.bookId && l.status == Issued {
        assert k in IssuedOf(loans, b);
      } else {
        assert IssuedOf(loans[k := l'], b) == IssuedOf(loans, b);
      }
    }
  }

  /** Issuing keeps the ledger. */
  lemma LedgerAfterIssue(books: map<Id, Book>, loans: map<Id, Loan>, k: Id, l: Loan)
    requires Ledger(books, loans)
    requires k !in loans && l.status == Issued && l.bookId in books
    ensures Ledger(books[l.bookId := Lent(books[l.bookId])], loans[k := l])
  {
    IssuedCountAfterIssue(loans, k, l);
  }

  /** Returning a loan that is still Issued keeps the ledger, whether or not its
      book still exists. */
  lemma LedgerAfterReturn(books: map<Id, Book>, loans: map<Id, Loan>, k: Id, now: Millis)
    requires Ledger(books, loans)
    requires k in loans && loans[k].status == Issued
    ensures Ledger(Restocked(books, loans[k].bookId), loans[k := ReturnedLoan(loans[k], now)])
  {
    IssuedCountAfterReturn(loans, k, now);
  }

  /** Issuing from a book with a free copy keeps every count within bounds. */
  lemma BoundedAfterIssue(books: map<Id, Book>, id: Id)
    requires Bounded(books)
    requires id in books && books[id].availableCopies >= 1
    ensures Bounded(books[id := Lent(books[id])])
  {
  }

  /** Under the ledger, returning an Issued loan cannot push a book's available
      count above its total: that loan is one of the copies counted as out. */
  lemma BoundedAfterReturn(books: map<Id, Book>, loans: map<Id, Loan>, k: Id)
    requires Ledger(books, loans) && Bounded(books)
    requires k in loans && loans[k].status == Issued
    ensures Bounded(Restocked(books, loans[k].bookId))
  {
    var b := loans[k].bookId;
    if b in books {
      assert k in IssuedOf(loans, b);
      assert |IssuedOf(loans, b)| >= 1;
    }
  }

  /** A revised book keeps its copies on loan, so updates keep the ledger. */
  lemma LedgerAfterUpdate(books: map<Id, Book>, loans: map<Id, Loan>, id: Id, req: BookRequest)
    requires Ledger(books, loans) && id in books
    ensures Ledger(books[id := Revised(books[id], req)], loans)
  {
  }

  /** A new book whose fresh id no loan refers to keeps the ledger. */
  lemma LedgerAfterAdd(books: map<Id, Book>, loans: map<Id, Loan>, id: Id, req: BookRequest)
    requires Ledger(books, loans) && NewBook(id, req).Ok?
    requires forall k :: k in loans ==> loans[k].bookId != id
    ensures Ledger(books[id := NewBook(id, req).value], loans)
  {
    assert IssuedOf(loans, id) == {};
  }

  /** Deleting a book keeps the ledger of the books that remain. */
  lemma LedgerAfterDelete(books: map<Id, Book>, loans: map<Id, Loan>, id: Id)
    requires Ledger(books, loans)
    ensures Ledger(books - {id}, loans)
  {
  }

  /** Returning a loan that is already Returned, while its book exists, breaks the
      ledger: the book gains a copy that no loan gave back. */
  lemma RepeatReturnBreaksLedger(books: map<Id, Book>, loans: map<Id, Loan>, k: Id, now: Millis)
    requires Ledger(books, loans)
    requires k in loans && loans[k].status == Returned && loans[k].bookId in books
    ensures !Ledger(Restocked(books, loans[k].bookId), loans[k := ReturnedLoan(loans[k], now)])
  {
    var b := loans[k].bookId;
    IssuedCountAfterReturn(loans, k, now);
    var books' := Restocked(books, b);
    assert OnLoan(books'[b]) == OnLoan(books[b]) - 1;
  }

  /** One copy, lent and already given back: a second return of the same loan
      reports two copies available out of one. */
  lemma DoubleReturnExample()
    ensures var book := Book("b", "Dune", "Herbert", "SF", 1, 1);
            var loan := Loan("l", "b", "u", 0, 14 * DayMs, Some(DayMs), Returned, 0);
            var books := map["b" := book];
            var loans := map["l" := loan];
            && Ledger(books, loans)
            && Restocked(books, "b")["b"].availableCopies == 2
            && !Ledger(Restocked(books, "b"), loans["l" := ReturnedLoan(loan, 20 * DayMs)])
  {
    var book := Book("b", "Dune", "Herbert", "SF", 1, 1);
    var loan := Loan("l", "b", "u", 0, 14 * DayMs, Some(DayMs), Returned, 0);
    var books := map["b" := book];
    var loans := map["l" := loan];
    assert IssuedOf(loans, "b") == {};
    assert Ledger(books, loans);
    RepeatReturnBreaksLedger(books, loans, "l", 20 * DayMs);
  }

  /** The loan as a populated response: the book reference is filled in from the
      book collection, or null when that book is gone. */
  function PopulatedView(l: Loan, books: map<Id, Book>): (r: ClientLoan)
    ensures r.book == Null <==> l.bookId !in books
    ensures r.book != Null ==> r.book == Populated(l.bookId)
    ensures r.id == l.id && r.userId == l.userId && r.status == l.status
    ensures r.issueDate == l.issueDate && r.dueDate == l.dueDate && r.returnDate == l.returnDate
    ensures r.fineAmount == Some(l.fineAmount)
  {
    var ref := if l.bookId in books then Populated(l.bookId) else Null;
    ClientLoan(l.id, ref, l.userId, l.issueDate, l.dueDate, l.returnDate, l.status, Some(l.fineAmount))
  }

  /** The loan as returnBook sends it back: the book reference is the bare id. */
  function PlainView(l: Loan): (r: ClientLoan)
    ensures r.book == Plain(l.bookId)
    ensures r.id == l.id && r.userId == l.userId && r.status == l.status
    ensures r.issueDate == l.issueDate && r.dueDate == l.dueDate && r.returnDate == l.returnDate
    ensures r.fineAmount == Some(l.fineAmount)
  {
    ClientLoan(l.id, Plain(l.bookId), l.userId, l.issueDate, l.dueDate, l.returnDate, l.status, Some(l.fineAmount))
  }

  /** What the guarded return answers for loan `k` at `now`: NotFound for an unknown
      loan, AlreadyReturned for one already given back, otherwise the returned record. */
  function GuardedReturn(loans: map<Id, Loan>, k: Id, now: Millis): (r: Result<Loan>)
    ensures r.Ok? <==> k in loans && loans[k].status == Issued
    ensures k !in loans ==> r == Err(NotFound)
    ensures k in loans && loans[k].status == Returned ==> r == Err(AlreadyReturned)
    ensures r.Ok? ==> r.value == ReturnedLoan(loans[k], now)
  {
    if k !in loans then Err(NotFound)
    else if loans[k].status == Returned then Err(AlreadyReturned)
    else Ok(ReturnedLoan(loans[k], now))
  }

  /** The IssuedBook collection, with the Book collection it updates. */
  class Circulation {
    var loans: map<Id, Loan>
    const catalog: BookCollection

    ghost predicate Valid()
      reads this, catalog
    {
      catalog.Valid() && forall k :: k in loans ==> loans[k].id == k
    }

    constructor (catalog: BookCollection)
      requires catalog.Valid()
      ensures Valid() && this.catalog == catalog && loans == map[]
    {
      this.catalog := catalog;
      loans := map[];
    }

    /** GET /issued-books: an Admin sees every loan, anyone else only their own. */
    function GetIssuedBooks(p: Principal): (r: map<Id, Loan>)
      reads this
      ensures p.role == Admin ==> r == loans
      ensures forall k :: k in r <==> k in loans && (p.role == Admin || loans[k].userId == p.id)
      ensures forall k :: k in r ==> r[k] == loans[k]
    {
      if p.role != Admin then
        map k | k in loans && loans[k].userId == p.id :: loans[k]
      else
        loans
    }

    /** The body GET /issued-books sends: the visible loans with their book reference
        populated, which is null for a loan whose book has been deleted. */
    function ListResponse(p: Principal): (r: map<Id, ClientLoan>)
      reads this, catalog
      ensures r.Keys == GetIssuedBooks(p).Keys
      ensures forall k :: k in r ==>
        r[k].book == (if loans[k].bookId in catalog.books then Populated(loans[k].bookId) else Null)
      ensures forall k :: k in r ==>
        r[k].status == loans[k].status && r[k].dueDate == loans[k].dueDate
        && r[k].fineAmount == Some(loans[k].fineAmount)
    {
      var visible := GetIssuedBooks(p);
      map k | k in visible :: PopulatedView(visible[k], catalog.books)
    }

    /** POST /issued-books. `newId` is the fresh identity the store assigns and
        `now` the clock reading. */
    method IssueBook(bookId: Id, userId: Id, dueDate: Millis, now: Millis, newId: Id) returns (r: Result<Loan>)
      requires Valid() && newId !in loans
      modifies this, catalog
      ensures Valid()
      ensures bookId !in old(catalog.books) ==> r == Err(NotFound)
      ensures bookId in old(catalog.books) && old(catalog.books)[bookId].availableCopies < 1 ==> r == Err(Unavailable)
      ensures r.Err? ==> loans == old(loans) && catalog.books == old(catalog.books)
      ensures r.Ok? <==> bookId in old(catalog.books) && old(catalog.books)[bookId].availableCopies >= 1
      ensures r.Ok? ==> r.value == Loan(newId, bookId, userId, now, dueDate, None, Issued, 0)
      ensures r.Ok? ==> loans == old(loans)[newId := r.value]
      ensures r.Ok? ==> catalog.books == old(catalog.books)[bookId := Lent(old(catalog.books)[bookId])]
      ensures old(Ledger(catalog.books, loans)) ==> Ledger(catalog.books, loans)
      ensures old(Bounded(catalog.books)) ==> Bounded(catalog.books)
    {
      if bookId !in catalog.books {
        r := Err(NotFound);
        return;
      }
      var book := catalog.books[bookId];
      if book.availableCopies < 1 {
        r := Err(Unavailable);
        return;
      }
      ghost var books0, loans0 := catalog.books, loans;
      var loan := Loan(newId, bookId, userId, now, dueDate, None, Issued, 0);
      loans := loans[newId := loan];
      book := book.(availableCopies := book.availableCopies - 1);
      catalog.books := catalog.books[bookId := book];
      r := Ok(loan);
      if Ledger(books0, loans0) {
        LedgerAfterIssue(books0, loans0, newId, loan);
      }
      if Bounded(books0) {
        BoundedAfterIssue(books0, bookId);
      }
    }

    /** PUT /issued-books/:id/return, as the source has it: there is no check that
        the loan is still Issued. */
    method ReturnBook(loanId: Id, now: Millis) returns (r: Result<Loan>)
      requires Valid()
      modifies this, catalog
      ensures Valid()
      ensures loanId !in old(loans) ==> r == Err(NotFound) && loans == old(loans) && catalog.books == old(catalog.books)
      ensures loanId in old(loans) ==> r == Ok(ReturnedLoan(old(loans)[loanId], now))
      ensures loanId in old(loans) ==> loans == old(loans)[loanId := r.value]
      ensures loanId in old(loans) ==> catalog.books == Restocked(old(catalog.books), old(loans)[loanId].bookId)
      ensures loanId in old(loans) && old(loans)[loanId].status == Issued ==>
        (old(Ledger(catalog.books, loans)) ==> Ledger(catalog.books, loans)) &&
        (old(Ledger(catalog.books, loans) && Bounded(catalog.books)) ==> Bounded(catalog.books))
    {
      if loanId !in loans {
        r := Err(NotFound);
        return;
      }
      ghost var books0, loans0 := catalog.books, loans;
      var loan := loans[loanId];
      loan := loan.(returnDate := Some(now), status := Returned);
      if now > loan.dueDate {
        var diffDays := CeilDays(now - loan.dueDate);
        loan := loan.(fineAmount := diffDays * FinePerDay);
      }
      assert loan == ReturnedLoan(loans0[loanId], now);
      loans := loans[loanId := loan];
      if loan.bookId in catalog.books {
        var book := catalog.books[loan.bookId];
        catalog.books := catalog.books[loan.bookId := book.(availableCopies := book.availableCopies + 1)];
      }
      assert catalog.books == Restocked(books0, loan.bookId);
      r := Ok(loan);
      if loans0[loanId].status == Issued && Ledger(books0, loans0) {
        LedgerAfterReturn(books0, loans0, loanId, now);
        if Bounded(books0) {
          BoundedAfterReturn(books0, loans0, loanId);
        }
      }
    }

    /** The return with the one-way Issued to Returned guard: a loan already
        Returned is refused and nothing changes, so the ledger always holds. */
    method ReturnBookGuarded(loanId: Id, now: Millis) returns (r: Result<Loan>)
      requires Valid()
      modifies this, catalog
      ensures Valid()
      ensures loanId !in old(loans) ==> r == Err(NotFound)
      ensures loanId in old(loans) && old(loans)[loanId].status == Returned ==> r == Err(AlreadyReturned)
      ensures r.Err? ==> loans == old(loans) && catalog.books == old(catalog.books)
      ensures r.Ok? <==> loanId in old(loans) && old(loans)[loanId].status == Issued
      ensures r.Ok? ==> r.value == ReturnedLoan(old(loans)[loanId], now)
      ensures r.Ok? ==> loans == old(loans)[loanId := r.value]
      ensures r.Ok? ==> catalog.books == Restocked(old(catalog.books), old(loans)[loanId].bookId)
      ensures r == GuardedReturn(old(loans), loanId, now)
      ensures old(Ledger(catalog.books, loans)) ==> Ledger(catalog.books, loans)
      ensures old(Ledger(catalog.books, loans) && Bounded(catalog.books)) ==> Bounded(catalog.books)
    {
      if loanId in loans && loans[loanId].status == Returned {
        r := Err(AlreadyReturned);
        return;
      }
      r := ReturnBook(loanId, now);
    }
  }
}
