/** The client's copy of the three lists (books, users, loans) and how each API call's
    response is folded into it. Every new list is built from the old one by append,
    map or filter; a call that fails leaves all lists as they were. */
module LibraryContext {
  import opened Types
  import opened BookController
  import opened IssuedBookController

  datatype State = State(books: seq<Book>, users: seq<User>, loans: seq<ClientLoan>)

  /** `xs.filter(x => key(x) !== id)`: drops exactly the entries with that id. */
  function Without<T(==,!new)>(xs: seq<T>, key: T -> Id, id: Id): (r: seq<T>)
    ensures forall x :: multiset(r)[x] == if key(x) == id then 0 else multiset(xs)[x]
    ensures forall x :: x in r <==> x in xs && key(x) != id
  {
    if xs == [] then []
    else
      assert xs == [xs[0]] + xs[1..];
      (if key(xs[0]) == id then [] else [xs[0]]) + Without(xs[1..], key, id)
  }

  lemma ConcatAssociative<T>(a: seq<T>, b: seq<T>, c: seq<T>)
    ensures a + (b + c) == (a + b) + c
  {
  }

  /** Filtering distributes over concatenation, so the survivors keep their order. */
  lemma {:induction false} WithoutConcat<T(!new)>(xs: seq<T>, ys: seq<T>, key: T -> Id, id: Id)
    ensures Without(xs + ys, key, id) == Without(xs, key, id) + Without(ys, key, id)
  {
    if xs == [] {
      assert xs + ys == ys;
    } else {
      var head := if key(xs[0]) == id then [] else [xs[0]];
      assert (xs + ys)[0] == xs[0];
      assert (xs + ys)[1..] == xs[1..] + ys;
      assert Without(xs + ys, key, id) == head + Without(xs[1..] + ys, key, id);
      WithoutConcat(xs[1..], ys, key, id);
      var rest, tail := Without(xs[1..], key, id), Without(ys, key, id);
      ConcatAssociative(head, rest, tail);
      assert Without(xs, key, id) == head + rest;
    }
  }

  /** Filtering out an id that no entry has changes nothing. */
  lemma {:induction false} WithoutAbsent<T(!new)>(xs: seq<T>, key: T -> Id, id: Id)
    requires forall i :: 0 <= i < |xs| ==> key(xs[i]) != id
    ensures Without(xs, key, id) == xs
  {
    if xs != [] {
      WithoutAbsent(xs[1..], key, id);
      assert xs == [xs[0]] + xs[1..];
    }
  }

  /** `xs.map(x => key(x) === id ? y : x)`: same length, only matching entries replaced. */
  function Replaced<T>(xs: seq<T>, key: T -> Id, id: Id, y: T): (r: seq<T>)
    ensures |r| == |xs|
    ensures forall i :: 0 <= i < |xs| ==> r[i] == if key(xs[i]) == id then y else xs[i]
  {
    if xs == [] then []
    else [if key(xs[0]) == id then y else xs[0]] + Replaced(xs[1..], key, id, y)
  }

  /** `books.map(b => b._id === id ? { ...b, availableCopies: b.availableCopies + delta } : b)`:
      only the matching books change, and only in availableCopies. */
  function Adjusted(books: seq<Book>, id: Id, delta: int): (r: seq<Book>)
    ensures |r| == |books|
    ensures forall i :: 0 <= i < |books| ==>
      r[i] == if books[i].id == id then books[i].(availableCopies := books[i].availableCopies + delta) else books[i]
  {
    if books == [] then []
    else
      var b := books[0];
      [if b.id == id then b.(availableCopies := b.availableCopies + delta) else b] + Adjusted(books[1..], id, delta)
  }

  /** `typeof ref === 'object' ? ref._id : ref`; None stands for the TypeError that
      reading `_id` of null raises. */
  function RefId(ref: Ref): (r: Option<Id>)
    ensures r.None? <==> ref == Null
    ensures r.Some? ==> r.value == ref.id
  {
    match ref
    case Populated(id) => Some(id)
    case Plain(id) => Some(id)
    case Null => None
  }

  /** addBook: the server's record goes to the end. `response` is None when the call failed. */
  function OnAddBook(s: State, response: Option<Book>): (t: State)
    ensures t.users == s.users && t.loans == s.loans
    ensures response.None? ==> t == s
    ensures response.Some? ==>
      |t.books| == |s.books| + 1 && t.books[..|s.books|] == s.books && t.books[|s.books|] == response.value
  {
    if response.Some? then s.(books := s.books + [response.value]) else s
  }

  /** updateBook: the entries with that id are replaced by the server's record. */
  function OnUpdateBook(s: State, id: Id, response: Option<Book>): (t: State)
    ensures t.users == s.users && t.loans == s.loans
    ensures response.None? ==> t == s
    ensures response.Some? ==> t.books == Replaced(s.books, BookId, id, response.value)
  {
    if response.Some? then s.(books := Replaced(s.books, BookId, id, response.value)) else s
  }

  /** deleteBook: `deleted` is whether the DELETE call succeeded. */
  function OnDeleteBook(s: State, id: Id, deleted: bool): (t: State)
    ensures t.users == s.users && t.loans == s.loans
    ensures !deleted ==> t == s
    ensures deleted ==> t.books == Without(s.books, BookId, id)
    ensures deleted ==> forall b :: b in t.books <==> b in s.books && b.id != id
  {
    if deleted then s.(books := Without(s.books, BookId, id)) else s
  }

  /** addUser: the registered user goes to the end. */
  function OnAddUser(s: State, response: Option<User>): (t: State)
    ensures t.books == s.books && t.loans == s.loans
    ensures response.None? ==> t == s
    ensures response.Some? ==>
      |t.users| == |s.users| + 1 && t.users[..|s.users|] == s.users && t.users[|s.users|] == response.value
  {
    if response.Some? then s.(users := s.users + [response.value]) else s
  }

  /** deleteUser. */
  function OnDeleteUser(s: State, id: Id, deleted: bool): (t: State)
    ensures t.books == s.books && t.loans == s.loans
    ensures !deleted ==> t == s
    ensures deleted ==> t.users == Without(s.users, UserId, id)
    ensures deleted ==> forall u :: u in t.users <==> u in s.users && u.id != id
  {
    if deleted then s.(users := Without(s.users, UserId, id)) else s
  }

  /** issueBook: the new loan goes to the end and the issued book loses one copy. */
  function OnIssueBook(s: State, bookId: Id, response: Option<ClientLoan>): (t: State)
    ensures t.users == s.users
    ensures response.None? ==> t == s
    ensures response.Some? ==> t.loans == s.loans + [response.value]
    ensures response.Some? ==> |t.books| == |s.books|
    ensures response.Some? ==> forall i :: 0 <= i < |s.books| ==>
      t.books[i] == if s.books[i].id == bookId then Lent(s.books[i]) else s.books[i]
  {
    if response.Some? then
      s.(loans := s.loans + [response.value], books := Adjusted(s.books, bookId, -1))
    else s
  }

  /** returnBook: the loan with that id is replaced by the response, and the book it
      names gains one copy. A null book reference throws after the loans were set,
      so then only the books stay as they were. */
  function OnReturnBook(s: State, id: Id, response: Option<ClientLoan>): (t: State)
    ensures t.users == s.users
    ensures response.None? ==> t == s
    ensures response.Some? ==> t.loans == Replaced(s.loans, LoanId, id, response.value)
    ensures response.Some? && response.value.book == Null ==> t.books == s.books
    ensures response.Some? && response.value.book != Null ==>
      t.books == Adjusted(s.books, response.value.book.id, 1)
  {
    if response.None? then s
    else
      var loans := Replaced(s.loans, LoanId, id, response.value);
      match RefId(response.value.book)
      case None => s.(loans := loans)
      case Some(bookId) => s.(loans := loans, books := Adjusted(s.books, bookId, 1))
  }

  /** Adding a book and then deleting it gives back the list the client started from. */
  lemma AddThenDeleteBook(s: State, b: Book)
    requires forall i :: 0 <= i < |s.books| ==> s.books[i].id != b.id
    ensures OnDeleteBook(OnAddBook(s, Some(b)), b.id, true) == s
  {
    WithoutConcat(s.books, [b], BookId, b.id);
    WithoutAbsent(s.books, BookId, b.id);
    assert Without([b], BookId, b.id) == [];
  }

  /** Every book the client lists is, field for field, the server's record with that id. */
  ghost predicate Agrees(client: seq<Book>, server: map<Id, Book>) {
    forall i :: 0 <= i < |client| ==> client[i].id in server && server[client[i].id] == client[i]
  }

  lemma MirrorAfterAdd(client: seq<Book>, server: map<Id, Book>, b: Book)
    requires Agrees(client, server) && b.id !in server
    ensures Agrees(client + [b], server[b.id := b])
  {
  }

  lemma MirrorAfterUpdate(client: seq<Book>, server: map<Id, Book>, id: Id, req: BookRequest)
    requires Agrees(client, server) && id in server
    ensures Agrees(Replaced(client, BookId, id, Revised(server[id], req)), server[id := Revised(server[id], req)])
  {
  }

  lemma MirrorAfterDelete(client: seq<Book>, server: map<Id, Book>, id: Id)
    requires Agrees(client, server)
    ensures Agrees(Without(client, BookId, id), server - {id})
  {
    var r := Without(client, BookId, id);
    forall i | 0 <= i < |r| ensures r[i].id in server - {id} && (server - {id})[r[i].id] == r[i] {
      assert r[i] in r;
      var j :| 0 <= j < |client| && client[j] == r[i];
    }
  }

  /** After a successful issue the client's books agree with the server's again. */
  lemma ClientFollowsIssue(s: State, server: map<Id, Book>, bookId: Id, loan: ClientLoan)
    requires Agrees(s.books, server) && bookId in server
    ensures Agrees(OnIssueBook(s, bookId, Some(loan)).books, server[bookId := Lent(server[bookId])])
  {
  }

  /** After a successful return, whose response names the book by bare id, the
      client's books agree with the server's again, even if the book was deleted. */
  lemma ClientFollowsReturn(s: State, server: map<Id, Book>, loans: map<Id, Loan>, k: Id, now: Millis)
    requires Agrees(s.books, server) && k in loans
    ensures Agrees(OnReturnBook(s, k, Some(PlainView(ReturnedLoan(loans[k], now)))).books,
                   Restocked(server, loans[k].bookId))
  {
  }
}
