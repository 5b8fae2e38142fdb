/** The book collection and the three admin operations on it: add, update, delete.
    A book's ledger pair is (totalCopies, availableCopies); their difference is the
    number of copies on loan. */
module BookController {
  import opened Types

  /** The body of POST /books and PUT /books/:id; a field the client leaves out is None. */
  datatype BookRequest = BookRequest(
    name: Option<string>,
    author: Option<string>,
    category: Option<string>,
    totalCopies: Option<int>)

  /** JavaScript truthiness of an optional string field. */
  predicate Truthy(s: Option<string>) {
    s.Some? && s.value != ""
  }

  /** The schema's required string fields are present and non-empty. */
  predicate WellFormed(b: Book) {
    b.name != "" && b.author != "" && b.category != ""
  }

  /** Copies currently out on loan, by the ledger. */
  function OnLoan(b: Book): int {
    b.totalCopies - b.availableCopies
  }

  /** `totalCopies || 1`: a missing or zero count becomes one copy. */
  function CopiesOrOne(n: Option<int>): (copies: int)
    ensures copies != 0
    ensures n.Some? && n.value != 0 ==> copies == n.value
    ensures n.None? || n.value == 0 ==> copies == 1
  {
    if n.Some? && n.value != 0 then n.value else 1
  }

  /** The document addBook saves: both counts start equal, and the save is refused
      when a required string is missing or empty. */
  function NewBook(id: Id, req: BookRequest): (r: Result<Book>)
    ensures r.Ok? <==> Truthy(req.name) && Truthy(req.author) && Truthy(req.category)
    ensures r.Err? ==> r.error == Invalid
    ensures r.Ok? ==> r.value.id == id && WellFormed(r.value)
    ensures r.Ok? ==> r.value.totalCopies == r.value.availableCopies == CopiesOrOne(req.totalCopies)
    ensures r.Ok? ==> OnLoan(r.value) == 0
  {
    if Truthy(req.name) && Truthy(req.author) && Truthy(req.category) then
      var copies := CopiesOrOne(req.totalCopies);
      Ok(Book(id, req.name.value, req.author.value, req.category.value, copies, copies))
    else
      Err(Invalid)
  }

  /** The record updateBook saves: each string field falls back to the old value
      unless a truthy one is supplied, and a new total moves availableCopies by the
      same difference, with no clamp. */
  function Revised(b: Book, req: BookRequest): (r: Book)
    ensures r.id == b.id
    ensures r.name == (if Truthy(req.name) then req.name.value else b.name)
    ensures r.author == (if Truthy(req.author) then req.author.value else b.author)
    ensures r.category == (if Truthy(req.category) then req.category.value else b.category)
    ensures req.totalCopies.None? ==> r.totalCopies == b.totalCopies && r.availableCopies == b.availableCopies
    ensures req.totalCopies.Some? ==> r.totalCopies == req.totalCopies.value
    ensures OnLoan(r) == OnLoan(b)
    ensures WellFormed(b) ==> WellFormed(r)
  {
    var name := if Truthy(req.name) then req.name.value else b.name;
    var author := if Truthy(req.author) then req.author.value else b.author;
    var category := if Truthy(req.category) then req.category.value else b.category;
    var b' := b.(name := name, author := author, category := category);
    match req.totalCopies
    case None => b'
    case Some(total) =>
      var difference := total - b.totalCopies;
      b'.(totalCopies := total, availableCopies := b.availableCopies + difference)
  }

  /** Shrinking the total below the copies on loan leaves availableCopies negative. */
  lemma ShrinkBelowOnLoan(b: Book, req: BookRequest)
    requires req.totalCopies.Some? && req.totalCopies.value < OnLoan(b)
    ensures Revised(b, req).availableCopies < 0
  {
  }

  /** The Book collection of the store, keyed by id. */
  class BookCollection {
    var books: map<Id, Book>

    ghost predicate Valid()
      reads this
    {
      forall id :: id in books ==> books[id].id == id && WellFormed(books[id])
    }

    constructor ()
      ensures Valid() && books == map[]
    {
      books := map[];
    }

    /** POST /books. `id` is the fresh identity the store assigns. */
    method AddBook(id: Id, req: BookRequest) returns (r: Result<Book>)
      requires Valid() && id !in books
      modifies this
      ensures Valid()
      ensures r == NewBook(id, req)
      ensures r.Ok? ==> books == old(books)[id := r.value]
      ensures r.Err? ==> books == old(books)
    {
      if !(Truthy(req.name) && Truthy(req.author) && Truthy(req.category)) {
        r := Err(Invalid);
        return;
      }
      var copies := if req.totalCopies.Some? && req.totalCopies.value != 0 then req.totalCopies.value else 1;
      var book := Book(id, req.name.value, req.author.value, req.category.value, copies, copies);
      books := books[id := book];
      r := Ok(book);
    }

    /** PUT /books/:id. */
    method UpdateBook(id: Id, req: BookRequest) returns (r: Result<Book>)
      requires Valid()
      modifies this
      ensures Valid()
      ensures id !in old(books) ==> r == Err(NotFound) && books == old(books)
      ensures id in old(books) ==> r == Ok(Revised(old(books)[id], req)) && books == old(books)[id := r.value]
    {
      if id !in books {
        r := Err(NotFound);
        return;
      }
      var book := books[id];
      if Truthy(req.name) { book := book.(name := req.name.value); }
      if Truthy(req.author) { book := book.(author := req.author.value); }
      if Truthy(req.category) { book := book.(category := req.category.value); }
      if req.totalCopies.Some? {
        var difference := req.totalCopies.value - book.totalCopies;
        book := book.(totalCopies := req.totalCopies.value);
        book := book.(availableCopies := book.availableCopies + difference);
      }
      books := books[id := book];
      r := Ok(book);
    }

    /** DELETE /books/:id: removes exactly that book; loans that point at it stay. */
    method DeleteBook(id: Id) returns (r: Outcome)
      requires Valid()
      modifies this
      ensures Valid()
      ensures id !in old(books) ==> r == Fail(NotFound) && books == old(books)
      ensures id in old(books) ==> r == Pass && books == old(books) - {id}
    {
      if id !in books {
        r := Fail(NotFound);
        return;
      }
      books := books - {id};
      r := Pass;
    }
  }
}
