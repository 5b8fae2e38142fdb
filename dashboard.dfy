/** The dashboard's figures: copy totals, active loans, fines, loans due soon, the
    recent-activity list and the per-category book counts. The `reduce` folds run
    left to right, so each sum here peels off the last element. */
module Dashboard {
  import opened Types
  import opened Time
  import opened IssuedBookController
  import opened LibraryContext

  /** `books.reduce((sum, b) => sum + (b.totalCopies || 0), 0)` */
  function TotalCopies(books: seq<Book>): (total: int)
    ensures (forall i :: 0 <= i < |books| ==> books[i].totalCopies >= 0) ==> total >= 0
  {
    if books == [] then 0 else TotalCopies(books[..|books| - 1]) + books[|books| - 1].totalCopies
  }

  /** `books.reduce((sum, b) => sum + (b.availableCopies || 0), 0)` */
  function AvailableCopies(books: seq<Book>): (available: int)
    ensures (forall i :: 0 <= i < |books| ==> books[i].availableCopies >= 0) ==> available >= 0
  {
    if books == [] then 0 else AvailableCopies(books[..|books| - 1]) + books[|books| - 1].availableCopies
  }

  /** The number of listed books with that id. */
  function CountId(books: seq<Book>, id: Id): nat {
    if books == [] then 0
    else CountId(books[..|books| - 1], id) + (if books[|books| - 1].id == id then 1 else 0)
  }

  /** When no listed book has more copies available than it owns, neither do all of
      them together. */
  lemma {:induction false} AvailableNotAboveTotal(books: seq<Book>)
    requires forall i :: 0 <= i < |books| ==> books[i].availableCopies <= books[i].totalCopies
    ensures AvailableCopies(books) <= TotalCopies(books)
  {
    if books != [] {
      AvailableNotAboveTotal(books[..|books| - 1]);
    }
  }

  lemma {:induction false} AdjustedPrefix(books: seq<Book>, id: Id, delta: int)
    requires books != []
    ensures Adjusted(books, id, delta)[..|books| - 1] == Adjusted(books[..|books| - 1], id, delta)
  {
    var n := |books|;
    var whole, prefix := Adjusted(books, id, delta), Adjusted(books[..n - 1], id, delta);
    assert |whole[..n - 1]| == |prefix|;
    forall i | 0 <= i < n - 1 ensures whole[..n - 1][i] == prefix[i] {
      assert books[..n - 1][i] == books[i];
    }
  }

  /** The last book after the adjustment. */
  lemma AdjustedLast(books: seq<Book>, id: Id, delta: int)
    requires books != []
    ensures var last := books[|books| - 1];
            Adjusted(books, id, delta)[|books| - 1]
            == if last.id == id then last.(availableCopies := last.availableCopies + delta) else last
  {
  }

  lemma Distribute(a: int, b: int, c: int)
    ensures a * (b + c) == a * b + a * c
  {
  }

  /** Moving availableCopies of the books with that id by delta moves the available
      figure by delta for each of them. */
  lemma {:induction false} AvailableAfterAdjust(books: seq<Book>, id: Id, delta: int)
    ensures AvailableCopies(Adjusted(books, id, delta)) == AvailableCopies(books) + delta * CountId(books, id)
  {
    if books != [] {
      var n := |books|;
      var init := books[..n - 1];
      var adjusted := Adjusted(books, id, delta);
      AdjustedPrefix(books, id, delta);
      AdjustedLast(books, id, delta);
      AvailableAfterAdjust(init, id, delta);
      var c := CountId(init, id);
      var k := if books[n - 1].id == id then 1 else 0;
      assert CountId(books, id) == c + k;
      StepSum(AvailableCopies(adjusted[..n - 1]), AvailableCopies(init),
              adjusted[n - 1].availableCopies, books[n - 1].availableCopies, delta, c, k);
    }
  }

  /** One step of the sum: the prefix moved by delta·c and the last entry by delta·k. */
  lemma StepSum(prefix': int, prefix: int, last': int, last: int, delta: int, c: int, k: int)
    requires prefix' == prefix + delta * c && last' == last + delta * k
    ensures prefix' + last' == prefix + last + delta * (c + k)
  {
    Distribute(delta, c, k);
  }

  /** The adjustment never touches the total figure. */
  lemma {:induction false} TotalAfterAdjust(books: seq<Book>, id: Id, delta: int)
    ensures TotalCopies(Adjusted(books, id, delta)) == TotalCopies(books)
  {
    if books != [] {
      var n := |books|;
      AdjustedPrefix(books, id, delta);
      AdjustedLast(books, id, delta);
      TotalAfterAdjust(books[..n - 1], id, delta);
    }
  }

  /** `issuedBooks.filter(ib => ib.status === 'Issued').length` */
  function ActiveIssues(loans: seq<ClientLoan>): (n: nat)
    ensures n <= |loans|
  {
    if loans == [] then 0
    else ActiveIssues(loans[..|loans| - 1]) + (if loans[|loans| - 1].status == Issued then 1 else 0)
  }

  /** After a successful issue of a book the client lists once, the available figure
      drops by one and the active figure grows by one for a loan that is Issued. */
  lemma FiguresAfterIssue(s: State, bookId: Id, loan: ClientLoan)
    requires CountId(s.books, bookId) == 1
    ensures AvailableCopies(OnIssueBook(s, bookId, Some(loan)).books) == AvailableCopies(s.books) - 1
    ensures TotalCopies(OnIssueBook(s, bookId, Some(loan)).books) == TotalCopies(s.books)
    ensures ActiveIssues(OnIssueBook(s, bookId, Some(loan)).loans)
         == ActiveIssues(s.loans) + (if loan.status == Issued then 1 else 0)
  {
    AvailableAfterAdjust(s.books, bookId, -1);
    TotalAfterAdjust(s.books, bookId, -1);
    var loans' := s.loans + [loan];
    assert loans'[..|loans'| - 1] == s.loans;
  }

  /** `ib.fineAmount || 0` */
  function FineOrZero(fine: Option<int>): (amount: int)
    ensures fine.None? ==> amount == 0
    ensures fine.Some? ==> amount == fine.value
  {
    if fine.Some? then fine.value else 0
  }

  /** `issuedBooks.reduce((sum, ib) => sum + (ib.fineAmount || 0), 0)` */
  function Fines(loans: seq<ClientLoan>): (total: int)
    ensures (forall i :: 0 <= i < |loans| ==> FineOrZero(loans[i].fineAmount) >= 0) ==> total >= 0
  {
    if loans == [] then 0 else Fines(loans[..|loans| - 1]) + FineOrZero(loans[|loans| - 1].fineAmount)
  }

  /** Changing one loan changes the fines figure by the change in that loan's fine. */
  lemma {:induction false} FinesAfterChangeAt(a: seq<ClientLoan>, b: seq<ClientLoan>, i: int)
    requires |a| == |b| && 0 <= i < |a|
    requires forall j :: 0 <= j < |a| && j != i ==> a[j] == b[j]
    ensures Fines(b) == Fines(a) - FineOrZero(a[i].fineAmount) + FineOrZero(b[i].fineAmount)
  {
    var n := |a|;
    var a', b' := a[..n - 1], b[..n - 1];
    assert Fines(a) == Fines(a') + FineOrZero(a[n - 1].fineAmount);
    assert Fines(b) == Fines(b') + FineOrZero(b[n - 1].fineAmount);
    if i == n - 1 {
      assert a' == b' by {
        forall j | 0 <= j < n - 1 ensures a'[j] == b'[j] {
          assert a[j] == b[j];
        }
      }
    } else {
      assert a[n - 1] == b[n - 1];
      FinesAfterChangeAt(a', b', i);
    }
  }

  /** After returning a loan the client lists once, the fines figure moves by the fine
      the return added: nothing for an on-time return, the late fine otherwise. */
  lemma FinesAfterReturn(s: State, i: int, l: Loan, now: Millis)
    requires 0 <= i < |s.loans| && s.loans[i].id == l.id && s.loans[i].fineAmount == Some(l.fineAmount)
    requires forall j :: 0 <= j < |s.loans| && j != i ==> s.loans[j].id != l.id
    ensures Fines(OnReturnBook(s, l.id, Some(PlainView(ReturnedLoan(l, now)))).loans)
         == Fines(s.loans) + ReturnedLoan(l, now).fineAmount - l.fineAmount
    ensures now <= l.dueDate ==> Fines(OnReturnBook(s, l.id, Some(PlainView(ReturnedLoan(l, now)))).loans) == Fines(s.loans)
  {
    var t := OnReturnBook(s, l.id, Some(PlainView(ReturnedLoan(l, now))));
    FinesAfterChangeAt(s.loans, t.loans, i);
  }

  /** A loan counts as due soon while it is Issued and its due date is between 0
      and 3 days away, days rounded up; so from just under one day overdue up to
      exactly three days ahead. */
  function IsDueSoon(l: ClientLoan, today: Millis): (soon: bool)
    ensures soon <==> l.status == Issued && today - DayMs < l.dueDate <= today + 3 * DayMs
  {
    if l.status != Issued then false
    else
      var diffDays := CeilDays(l.dueDate - today);
      diffDays <= 3 && diffDays >= 0
  }

  /** The "Due Soon" figure, which never exceeds the active figure. */
  function DueSoon(loans: seq<ClientLoan>, today: Millis): (n: nat)
    ensures n <= ActiveIssues(loans)
  {
    if loans == [] then 0
    else DueSoon(loans[..|loans| - 1], today) + (if IsDueSoon(loans[|loans| - 1], today) then 1 else 0)
  }

  /** `issuedBooks.slice(0, 5)`: the first five loans, in list order. */
  function Recent(loans: seq<ClientLoan>): (r: seq<ClientLoan>)
    ensures |r| == if |loans| <= 5 then |loans| else 5
    ensures |loans| <= 5 ==> r == loans
    ensures forall i :: 0 <= i < |r| ==> r[i] == loans[i]
  {
    if |loans| <= 5 then loans else loans[..5]
  }

  /** `books.map(b => b.category)` */
  function CategoriesOf(books: seq<Book>): (cs: seq<string>)
    ensures |cs| == |books|
    ensures forall i :: 0 <= i < |books| ==> cs[i] == books[i].category
  {
    if books == [] then [] else CategoriesOf(books[..|books| - 1]) + [books[|books| - 1].category]
  }

  predicate NoDuplicates(xs: seq<string>) {
    forall i, j :: 0 <= i < j < |xs| ==> xs[i] != xs[j]
  }

  /** `Array.from(new Set(xs))`: each value once. */
  function Distinct(xs: seq<string>): (r: seq<string>)
    ensures forall c :: c in r <==> c in xs
    ensures NoDuplicates(r)
  {
    if xs == [] then []
    else
      var d := Distinct(xs[..|xs| - 1]);
      var c := xs[|xs| - 1];
      if c in xs[..|xs| - 1] then d
      else
        assert c !in d;
        d + [c]
  }

  /** `books.filter(b => b.category === c).length` */
  function CountCategory(books: seq<Book>, c: string): (n: nat)
    ensures n <= |books|
  {
    if books == [] then 0
    else CountCategory(books[..|books| - 1], c) + (if books[|books| - 1].category == c then 1 else 0)
  }

  /** A category has books exactly when some book is in it. */
  lemma {:induction false} CountCategoryPositive(books: seq<Book>, c: string)
    ensures CountCategory(books, c) > 0 <==> c in CategoriesOf(books)
  {
    if books != [] {
      var init := books[..|books| - 1];
      CountCategoryPositive(init, c);
      assert CategoriesOf(books) == CategoriesOf(init) + [books[|books| - 1].category];
    }
  }

  datatype CategoryRow = CategoryRow(category: string, count: nat)

  /** One row per category in `cs`, with the number of books in it. */
  function Rows(cs: seq<string>, books: seq<Book>): (rows: seq<CategoryRow>)
    ensures |rows| == |cs|
    ensures forall i :: 0 <= i < |cs| ==> rows[i] == CategoryRow(cs[i], CountCategory(books, cs[i]))
  {
    if cs == [] then []
    else Rows(cs[..|cs| - 1], books) + [CategoryRow(cs[|cs| - 1], CountCategory(books, cs[|cs| - 1]))]
  }

  /** The "Book Categories" panel. */
  function CategoryRows(books: seq<Book>): (rows: seq<CategoryRow>)
    ensures |rows| == |Distinct(CategoriesOf(books))|
    ensures forall i :: 0 <= i < |rows| ==>
      rows[i].category in CategoriesOf(books) && rows[i].count == CountCategory(books, rows[i].category)
  {
    Rows(Distinct(CategoriesOf(books)), books)
  }

  function RowTotal(rows: seq<CategoryRow>): int {
    if rows == [] then 0 else RowTotal(rows[..|rows| - 1]) + rows[|rows| - 1].count
  }

  function Occurrences(cs: seq<string>, x: string): nat {
    if cs == [] then 0 else Occurrences(cs[..|cs| - 1], x) + (if cs[|cs| - 1] == x then 1 else 0)
  }

  lemma {:induction false} OccurrencesOfDistinct(cs: seq<string>, x: string)
    requires NoDuplicates(cs)
    ensures Occurrences(cs, x) == if x in cs then 1 else 0
  {
    if cs != [] {
      var init := cs[..|cs| - 1];
      OccurrencesOfDistinct(init, x);
      assert cs == init + [cs[|cs| - 1]];
    }
  }

  /** One more book adds one to the rows of its category, once per listing of it. */
  lemma {:induction false} RowTotalWithBook(cs: seq<string>, books: seq<Book>, b: Book)
    ensures RowTotal(Rows(cs, books + [b])) == RowTotal(Rows(cs, books)) + Occurrences(cs, b.category)
  {
    var books' := books + [b];
    assert books'[..|books'| - 1] == books;
    if cs != [] {
      var init := cs[..|cs| - 1];
      RowTotalWithBook(init, books, b);
      assert Rows(cs, books')[..|cs| - 1] == Rows(init, books');
      assert Rows(cs, books)[..|cs| - 1] == Rows(init, books);
    }
  }

  /** Every listed category has at least one book. */
  lemma CategoryRowsNonEmpty(books: seq<Book>)
    ensures forall r :: r in CategoryRows(books) ==> r.count >= 1
  {
    var rows := CategoryRows(books);
    forall r | r in rows ensures r.count >= 1 {
      var i :| 0 <= i < |rows| && rows[i] == r;
      CountCategoryPositive(books, r.category);
    }
  }

  /** Each category is listed once, and exactly the categories some book has. */
  lemma CategoryRowsDistinct(books: seq<Book>)
    ensures NoDuplicates(Distinct(CategoriesOf(books)))
    ensures forall c :: c in Distinct(CategoriesOf(books)) <==> exists i :: 0 <= i < |books| && books[i].category == c
  {
    var cats := CategoriesOf(books);
    forall c ensures c in cats <==> exists i :: 0 <= i < |books| && books[i].category == c {
      if c in cats {
        var i :| 0 <= i < |cats| && cats[i] == c;
        assert books[i].category == c;
      }
    }
  }

  /** The category counts add up to the number of books. */
  lemma {:induction false} CategoryRowsTotal(books: seq<Book>)
    ensures RowTotal(CategoryRows(books)) == |books|
  {
    if books != [] {
      var cats := CategoriesOf(books);
      var init := books[..|books| - 1];
      var b := books[|books| - 1];
      assert books == init + [b];
      CategoryRowsTotal(init);
      var d0 := Distinct(CategoriesOf(init));
      assert cats[..|cats| - 1] == CategoriesOf(init);
      RowTotalWithBook(d0, init, b);
      OccurrencesOfDistinct(d0, b.category);
      if b.category in CategoriesOf(init) {
        assert Distinct(cats) == d0;
      } else {
        assert Distinct(cats) == d0 + [b.category];
        var rows := Rows(d0 + [b.category], books);
        assert rows[..|rows| - 1] == Rows(d0, books);
        CountCategoryPositive(init, b.category);
      }
    }
  }
}
