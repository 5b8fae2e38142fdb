/** Records shared by the backend controllers and the browser client: the Book and
    IssuedBook schemas of the document store and the client-side shapes of types.ts. */
module Types {

  /** Document identities (`_id`), as the strings the client sees. */
  type Id = string

  /** Instants are milliseconds since the epoch, as `Date.now()` returns them. */
  type Millis = int

  datatype Option<T> = None | Some(value: T)

  /** The principal's role; every role other than Admin is treated the same. */
  datatype Role = Admin | Student

  /** The authenticated caller the role gate hands to a controller. */
  datatype Principal = Principal(id: Id, role: Role)

  datatype Status = Issued | Returned

  /** A title in the catalogue with its ledger pair (totalCopies, availableCopies). */
  datatype Book = Book(
    id: Id,
    name: string,
    author: string,
    category: string,
    totalCopies: int,
    availableCopies: int)

  datatype User = User(id: Id, name: string, email: string, role: Role)

  /** A loan record as stored: references to the book and user by id. */
  datatype Loan = Loan(
    id: Id,
    bookId: Id,
    userId: Id,
    issueDate: Millis,
    dueDate: Millis,
    returnDate: Option<Millis>,
    status: Status,
    fineAmount: int)

  datatype Error =
    | NotFound          // 404: no book or loan with that id
    | Unavailable       // 400: no free copy to issue
    | Invalid           // the store's schema validation rejected the document
    | AlreadyReturned   // used only by the guarded return, which the source lacks

  datatype Result<T> = Ok(value: T) | Err(error: Error)

  datatype Outcome = Pass | Fail(error: Error)

  /** How a loan's book reference reaches the client: an object filled in from
      the book collection, the bare id, or null when the book was gone. */
  datatype Ref = Populated(id: Id) | Plain(id: Id) | Null

  /** A loan as the client holds it; `fineAmount` is optional in the client's type. */
  datatype ClientLoan = ClientLoan(
    id: Id,
    book: Ref,
    userId: Id,
    issueDate: Millis,
    dueDate: Millis,
    returnDate: Option<Millis>,
    status: Status,
    fineAmount: Option<int>)

  function BookId(b: Book): Id { b.id }
  function UserId(u: User): Id { u.id }
  function LoanId(l: ClientLoan): Id { l.id }
}
