/** The loan table and the issue form: overdue test, status badge, fine cell, Return
    action, the books the form offers and the form's default due date. */
module IssuedBooksPage {
  import opened Types
  import opened Time
  import opened IssuedBookController
  import opened LibraryContext

  /** `isOverdue(dueDate, status)`, with `today` the clock reading. */
  function IsOverdue(dueDate: Millis, status: Status, today: Millis): (overdue: bool)
    ensures overdue <==> status == Issued && dueDate < today
  {
    match status
    case Returned => false
    case Issued => dueDate < today
  }

  datatype Badge = ReturnedBadge | OverdueBadge | IssuedBadge

  /** The status cell: Returned first, then Overdue, otherwise Issued. */
  function StatusBadge(l: ClientLoan, today: Millis): (badge: Badge)
    ensures badge == ReturnedBadge <==> l.status == Returned
    ensures badge == OverdueBadge <==> l.status == Issued && l.dueDate < today
    ensures badge == IssuedBadge <==> l.status == Issued && today <= l.dueDate
  {
    if l.status == Returned then ReturnedBadge
    else if IsOverdue(l.dueDate, l.status, today) then OverdueBadge
    else IssuedBadge
  }

  /** A loan the table marks Overdue would be fined at least one day's fine if it
      came back now. */
  lemma OverdueBadgeMeansFine(l: Loan, books: map<Id, Book>, today: Millis)
    requires StatusBadge(PopulatedView(l, books), today) == OverdueBadge
    ensures ReturnedLoan(l, today).fineAmount >= FinePerDay
  {
  }

  datatype FineCell = Amount(value: int) | Dash

  /** `(fineAmount || 0) > 0 ? '$' + fineAmount : '-'` */
  function FineCellOf(fine: Option<int>): (cell: FineCell)
    ensures cell.Amount? <==> fine.Some? && fine.value > 0
    ensures cell.Amount? ==> cell.value == fine.value
  {
    var amount := if fine.Some? then fine.value else 0;
    if amount > 0 then Amount(fine.value) else Dash
  }

  /** A loan returned on time shows no fine; one returned late shows its fine. */
  lemma FineCellAfterReturn(l: Loan, now: Millis)
    requires l.fineAmount == 0
    ensures FineCellOf(PlainView(ReturnedLoan(l, now)).fineAmount)
         == if now > l.dueDate then Amount(ReturnedLoan(l, now).fineAmount) else Dash
  {
  }

  datatype Action = ReturnButton | NoAction

  /** The Actions cell, which only an admin's table has: a Return button exactly for
      loans still Issued. */
  function ActionFor(isAdmin: bool, status: Status): (action: Action)
    ensures action == ReturnButton <==> isAdmin && status == Issued
  {
    if !isAdmin then NoAction
    else
      match status
      case Issued => ReturnButton
      case Returned => NoAction
  }

  /** The table offers Return only where the guarded return would accept it, so
      from this page a loan is never returned twice. */
  lemma ReturnOfferedOnlyForIssued(loans: map<Id, Loan>, k: Id, books: map<Id, Book>, isAdmin: bool, now: Millis)
    requires k in loans && ActionFor(isAdmin, PopulatedView(loans[k], books).status) == ReturnButton
    ensures GuardedReturn(loans, k, now) == Ok(ReturnedLoan(loans[k], now))
  {
  }

  /** `books.filter(b => b.availableCopies > 0)`: the books the issue form offers. */
  function AvailableBooks(books: seq<Book>): (r: seq<Book>)
    ensures forall b :: multiset(r)[b] == if b.availableCopies > 0 then multiset(books)[b] else 0
    ensures forall b :: b in r <==> b in books && b.availableCopies > 0
  {
    if books == [] then []
    else
      assert books == [books[0]] + books[1..];
      (if books[0].availableCopies > 0 then [books[0]] else []) + AvailableBooks(books[1..])
  }

  /** While the client agrees with the server, every book the form offers passes
      the server's availability check. */
  lemma OfferedBooksCanBeIssued(client: seq<Book>, server: map<Id, Book>, b: Book)
    requires Agrees(client, server) && b in AvailableBooks(client)
    ensures b.id in server && server[b.id].availableCopies >= 1
  {
    var i :| 0 <= i < |client| && client[i] == b;
  }

  /** The form's default due date: midnight (UTC) of the day fourteen days from today. */
  function DefaultDueDate(today: Millis): (due: Millis)
    ensures due % DayMs == 0
    ensures today + 13 * DayMs < due <= today + 14 * DayMs
  {
    (today / DayMs + 14) * DayMs
  }

  /** With the default due date, a copy returned within thirteen days of issue is
      never fined. */
  lemma DefaultDueDateGraceTime(today: Millis, returnedAt: Millis)
    requires returnedAt <= today + 13 * DayMs
    ensures Fine(DefaultDueDate(today), returnedAt, 0) == 0
  {
  }
}
