# Library management: circulation ledger, fines and client mirror

This project models the core of a small library-management system in Dafny. It has
an Express/Mongoose backend and a React client.

- **Backend.** The backend keeps a Book collection. Each book carries a ledger pair
  (`totalCopies`, `availableCopies`). It also keeps an IssuedBook (loan) collection.
  Issuing a copy creates a loan in state `Issued` and takes one available copy.
  Returning stamps the loan `Returned`, charges 5 per started day late and gives the
  copy back.
- **Client.** The client holds a copy of the three lists (books, users, loans) and
  folds each API response into it. It derives the dashboard figures and the
  issued-books table from those lists.

Modules, one per core file:

| module | file | models |
|---|---|---|
| `Types` | `types.dfy` | the Book and IssuedBook schemas and the client's record shapes |
| `Time` | `time.dfy` | `Math.ceil(ms / (1000*60*60*24))` over millisecond instants |
| `BookController` | `book_controller.dfy` | `backend/controllers/bookController.js`: the class `BookCollection` with add, update and delete |
| `IssuedBookController` | `issued_book_controller.dfy` | `backend/controllers/issuedBookController.js`: the fine, the ledger invariant and the class `Circulation` with list, issue and return |
| `LibraryContext` | `library_context.dfy` | `frontend/src/context/LibraryContext.tsx`: how each call's response changes the client's lists |
| `Dashboard` | `dashboard.dfy` | `frontend/src/pages/Dashboard.tsx`: copies, active issues, fines, due soon, recent activity and the category panel |
| `IssuedBooksPage` | `issued_books_page.dfy` | `frontend/src/pages/IssuedBooks.tsx`: the overdue test, status badge, fine cell, Return action, offered books and default due date |

The central property is the **ledger invariant** `IssuedBookController.Ledger`. For
every book, `totalCopies - availableCopies` equals the number of its loans still
`Issued`.

- Issue, add, update and delete keep the ledger.
- A return keeps it only when the loan was still `Issued`.
- `returnBook` does not check the loan's status, so a second return of the same loan
  breaks the ledger. This is recorded under "## Findings".
- The corrected return, `Circulation.ReturnBookGuarded`, refuses such a return and
  keeps the ledger on every call.

On the client side, the predicate `LibraryContext.Agrees` says every listed book
equals the server's record with that id. The lemmas show that each successful
call's response keeps the client agreeing with the server. `Agrees` is one-way: it
says the client never contradicts the server, not that the client lists every
server book (an empty client list agrees with any server).

Behaviour the model keeps as the code has it:

- `updateBook` moves `availableCopies` by the change in the total, with no clamp.
  It can become negative (`BookController.ShrinkBelowOnLoan`).
- An on-time return keeps the fine the loan already had; it is not reset to 0.
- `returnBook` does not check that the loan is still `Issued`.
- Every role other than `Admin` is treated the same. The model names that role
  `Student`; `types.ts` names it `User`.

## Model

| member | source | states |
|---|---|---|
| Time.CeilDays | library-management/backend/controllers/issuedBookController.js:82-83 | the day count of a span, partial days rounded up: (days-1)·day < ms ≤ days·day |
| Time.CeilDaysUnique | library-management/backend/controllers/issuedBookController.js:83 | at most one integer meets those bounds, so they define the rounded-up day count |
| Time.CeilDaysOfWholeDays | library-management/backend/controllers/issuedBookController.js:83 | exactly k days of milliseconds round to k |
| Time.CeilDaysMonotone | library-management/frontend/src/pages/Dashboard.tsx:26-27 | a longer span never gives fewer days |
| BookController.CopiesOrOne | library-management/backend/controllers/bookController.js:21-22 | `totalCopies \|\| 1`: a given non-zero count is kept; a missing or zero count becomes 1 |
| BookController.NewBook | library-management/backend/controllers/bookController.js:14-27 | the book is saved iff name, author and category are all non-empty; otherwise it is refused as invalid; a saved book has both counts equal and none on loan |
| BookController.Revised | library-management/backend/controllers/bookController.js:37-46 | each string falls back to the old value unless a non-empty one is given; a new total moves availableCopies by the same difference; copies on loan are unchanged |
| BookController.ShrinkBelowOnLoan | library-management/backend/controllers/bookController.js:42-46 | a new total below the copies on loan leaves availableCopies negative (no clamp) |
| BookController.BookCollection.AddBook | library-management/backend/controllers/bookController.js:14-27 | the new collection is the old one plus the saved book under its fresh id; nothing changes when the save is refused |
| BookController.BookCollection.UpdateBook | library-management/backend/controllers/bookController.js:32-53 | an unknown id gives NotFound with nothing changed; otherwise only that book is replaced by its revised record, which is returned |
| BookController.BookCollection.DeleteBook | library-management/backend/controllers/bookController.js:58-67 | an unknown id gives NotFound; otherwise exactly that book is removed |
| IssuedBookController.Fine | library-management/backend/controllers/issuedBookController.js:81-85 | a late return costs 5 per started day late (a positive multiple of 5 within the ceiling bounds); an on-time return keeps the current fine |
| IssuedBookController.FineForWholeDaysLate | library-management/backend/controllers/issuedBookController.js:81-85 | k whole days late costs 5·k |
| IssuedBookController.FineRoundsPartialDayUp | library-management/backend/controllers/issuedBookController.js:83-84 | any lateness up to one day costs one full day |
| IssuedBookController.FineMonotone | library-management/backend/controllers/issuedBookController.js:81-85 | returning later never lowers the fine |
| IssuedBookController.FineScenario | library-management/backend/controllers/issuedBookController.js:81-85 | due 14 days after issue: returned 3 days late costs 15; returned on or before the due instant costs 0 |
| IssuedBookController.ReturnedLoan | library-management/backend/controllers/issuedBookController.js:73-85 | the returned record keeps ids and dates, is stamped with the return instant, is marked Returned and carries exactly `Fine(dueDate, now, old fine)`: 5 per started day late, or the old fine when on time |
| IssuedBookController.Lent | library-management/backend/controllers/issuedBookController.js:61 | the book after a copy is lent: one fewer available, same total and descriptive fields, one more on loan (used by `LedgerAfterIssue` and `BoundedAfterIssue`) |
| IssuedBookController.Restocked | library-management/backend/controllers/issuedBookController.js:89-94 | only the loan's book, if it still exists, gains one available copy; no other book changes |
| IssuedBookController.IssuedCountAfterIssue | library-management/backend/controllers/issuedBookController.js:46-54 | a new Issued loan adds one to its own book's Issued count and none to the others |
| IssuedBookController.IssuedCountAfterReturn | library-management/backend/controllers/issuedBookController.js:73-87 | a return takes one from its book's Issued count if the loan was still Issued, and changes no count otherwise |
| IssuedBookController.LedgerAfterIssue | library-management/backend/controllers/issuedBookController.js:46-62 | issuing keeps the ledger invariant |
| IssuedBookController.LedgerAfterReturn | library-management/backend/controllers/issuedBookController.js:70-96 | returning an Issued loan keeps the ledger, whether or not its book still exists |
| IssuedBookController.BoundedAfterIssue | library-management/backend/controllers/issuedBookController.js:41-62 | with the availability check passed, issuing keeps 0 ≤ available ≤ total for every book |
| IssuedBookController.BoundedAfterReturn | library-management/backend/controllers/issuedBookController.js:89-94 | under the ledger, returning an Issued loan cannot push available above total |
| IssuedBookController.LedgerAfterUpdate | library-management/backend/controllers/bookController.js:42-48 | updating a book keeps the ledger |
| IssuedBookController.LedgerAfterAdd | library-management/backend/controllers/bookController.js:17-25 | a new book that no loan refers to keeps the ledger |
| IssuedBookController.LedgerAfterDelete | library-management/backend/controllers/bookController.js:58-63 | deleting a book keeps the ledger of the books that remain |
| IssuedBookController.RepeatReturnBreaksLedger | library-management/backend/controllers/issuedBookController.js:70-96 | returning an already Returned loan whose book exists breaks the ledger |
| IssuedBookController.DoubleReturnExample | library-management/backend/controllers/issuedBookController.js:89-94 | one copy, lent and returned, then returned again: the book reports 2 of 1 copies available |
| IssuedBookController.GuardedReturn | library-management/backend/controllers/issuedBookController.js:70-100 | the answer of the return with the Issued-only guard: NotFound for an unknown loan, AlreadyReturned for a returned one, otherwise the returned record; it succeeds iff the loan exists and is Issued |
| IssuedBookController.PopulatedView | library-management/backend/controllers/issuedBookController.js:16-18 | a loan as the populated list sends it: the book reference is filled in when the book exists and null when it is gone; every other field is the stored one |
| IssuedBookController.PlainView | library-management/backend/controllers/issuedBookController.js:96 | a loan as the return response sends it: the book reference is the bare id; every other field is the stored one (used by `ClientFollowsReturn` and `FinesAfterReturn`) |
| IssuedBookController.Circulation.ListResponse | library-management/backend/controllers/issuedBookController.js:16-21 | the listed loans are exactly the visible ones; each book reference is populated when the book exists and null when it was deleted; status, due date and fine are the stored ones |
| IssuedBookController.Circulation.GetIssuedBooks | library-management/backend/controllers/issuedBookController.js:8-21 | an Admin gets every loan; anyone else gets exactly the loans whose userId is theirs, unchanged |
| IssuedBookController.Circulation.IssueBook | library-management/backend/controllers/issuedBookController.js:31-65 | unknown book gives NotFound; no free copy gives Unavailable; both change nothing; otherwise a new Issued loan with fine 0 is stored, the book loses one copy; the ledger is kept, and so are the bounds, each on its own |
| IssuedBookController.Circulation.ReturnBook | library-management/backend/controllers/issuedBookController.js:70-100 | an unknown loan gives NotFound with nothing changed; otherwise the loan becomes its returned record and its book is restocked, whatever its status; the ledger is kept only when it was Issued |
| IssuedBookController.Circulation.ReturnBookGuarded | library-management/backend/controllers/issuedBookController.js:70-100 | the same return but refusing a loan already Returned (its answer is `GuardedReturn`), so the ledger and bounds are kept on every call |
| LibraryContext.Without | library-management/frontend/src/context/LibraryContext.tsx:86 | the filter drops exactly the entries with that id and keeps every other entry with its multiplicity |
| LibraryContext.WithoutConcat | library-management/frontend/src/context/LibraryContext.tsx:86 | filtering a concatenation filters each part, so survivors keep their order |
| LibraryContext.WithoutAbsent | library-management/frontend/src/context/LibraryContext.tsx:104 | filtering out an id that no entry has changes nothing |
| LibraryContext.Replaced | library-management/frontend/src/context/LibraryContext.tsx:77 | same length; exactly the entries with that id are replaced by the response |
| LibraryContext.Adjusted | library-management/frontend/src/context/LibraryContext.tsx:116-120 | same length; the books with that id change in availableCopies only, by delta; the rest are unchanged |
| LibraryContext.RefId | library-management/frontend/src/context/LibraryContext.tsx:135 | a populated or bare reference yields its id; null yields none |
| LibraryContext.OnAddBook | library-management/frontend/src/context/LibraryContext.tsx:65-72 | on success the server's book is appended; on failure nothing changes |
| LibraryContext.OnUpdateBook | library-management/frontend/src/context/LibraryContext.tsx:74-81 | on success the entries with that id become the server's record; on failure nothing changes |
| LibraryContext.OnDeleteBook | library-management/frontend/src/context/LibraryContext.tsx:83-90 | on success the list is the filtered one: exactly the books with that id disappear, the rest keep their order and multiplicity; on failure nothing changes |
| LibraryContext.OnAddUser | library-management/frontend/src/context/LibraryContext.tsx:92-99 | on success the registered user is appended; on failure nothing changes |
| LibraryContext.OnDeleteUser | library-management/frontend/src/context/LibraryContext.tsx:101-108 | on success the list is the filtered one: exactly the users with that id disappear, the rest keep their order and multiplicity; on failure nothing changes |
| LibraryContext.OnIssueBook | library-management/frontend/src/context/LibraryContext.tsx:110-124 | on success the loan is appended and the issued book loses one available copy; on failure nothing changes |
| LibraryContext.OnReturnBook | library-management/frontend/src/context/LibraryContext.tsx:126-145 | on success the loan is replaced; the referenced book gains one copy, except that a null book reference leaves the books as they were |
| LibraryContext.AddThenDeleteBook | library-management/frontend/src/context/LibraryContext.tsx:65-90 | adding a book with a new id and then deleting it restores the client's lists |
| LibraryContext.MirrorAfterAdd | library-management/frontend/src/context/LibraryContext.tsx:68 | appending the server's new book keeps the client in agreement with the server |
| LibraryContext.MirrorAfterUpdate | library-management/frontend/src/context/LibraryContext.tsx:77 | replacing by the server's revised record keeps agreement |
| LibraryContext.MirrorAfterDelete | library-management/frontend/src/context/LibraryContext.tsx:86 | filtering out the deleted id keeps agreement |
| LibraryContext.ClientFollowsIssue | library-management/frontend/src/context/LibraryContext.tsx:113-120 | after a successful issue, the client's local decrement matches the server's |
| LibraryContext.ClientFollowsReturn | library-management/frontend/src/context/LibraryContext.tsx:131-141 | after a successful return, the client's local increment matches the server's restock, even when the book was deleted |
| Dashboard.TotalCopies | library-management/frontend/src/pages/Dashboard.tsx:12 | the left-to-right sum of the books' totals, non-negative when every total is (its change under the client's adjustment is `TotalAfterAdjust`) |
| Dashboard.AvailableCopies | library-management/frontend/src/pages/Dashboard.tsx:13 | the left-to-right sum of the books' available counts, non-negative when every count is (its change is `AvailableAfterAdjust`) |
| Dashboard.AvailableNotAboveTotal | library-management/frontend/src/pages/Dashboard.tsx:12-13 | if no book has more available than owned copies, the available figure is at most the total figure |
| Dashboard.AvailableAfterAdjust | library-management/frontend/src/pages/Dashboard.tsx:13 | moving the books with an id by delta moves the available figure by delta per such book |
| Dashboard.TotalAfterAdjust | library-management/frontend/src/pages/Dashboard.tsx:12 | the client's local adjustment never changes the total figure |
| Dashboard.ActiveIssues | library-management/frontend/src/pages/Dashboard.tsx:14 | the active count never exceeds the number of loans |
| Dashboard.FiguresAfterIssue | library-management/frontend/src/pages/Dashboard.tsx:12-14 | after an issue, the available figure drops by one, the total is unchanged and the active figure grows by one |
| Dashboard.FineOrZero | library-management/frontend/src/pages/Dashboard.tsx:21 | `fineAmount \|\| 0`: a missing fine counts as 0, a present one as itself |
| Dashboard.Fines | library-management/frontend/src/pages/Dashboard.tsx:21 | the fine total is non-negative when every fine is |
| Dashboard.FinesAfterChangeAt | library-management/frontend/src/pages/Dashboard.tsx:21 | changing one loan changes the fines figure by exactly the change in that loan's fine |
| Dashboard.FinesAfterReturn | library-management/frontend/src/pages/Dashboard.tsx:21 | after the client folds in a return of a loan it lists once, the fines figure grows by the fine the backend added; an on-time return leaves it unchanged |
| Dashboard.IsDueSoon | library-management/frontend/src/pages/Dashboard.tsx:22-28 | an Issued loan is due soon exactly when its due date is within (today − 1 day, today + 3 days] |
| Dashboard.DueSoon | library-management/frontend/src/pages/Dashboard.tsx:22-29 | the due-soon figure never exceeds the active figure |
| Dashboard.Recent | library-management/frontend/src/pages/Dashboard.tsx:127 | exactly the first min(5, n) loans, in list order |
| Dashboard.CategoriesOf | library-management/frontend/src/pages/Dashboard.tsx:160 | one category per book, in order |
| Dashboard.Distinct | library-management/frontend/src/pages/Dashboard.tsx:160 | the same values as the input, each once (the order of first appearance is not stated) |
| Dashboard.CountCategory | library-management/frontend/src/pages/Dashboard.tsx:161 | the count never exceeds the number of books |
| Dashboard.CountCategoryPositive | library-management/frontend/src/pages/Dashboard.tsx:161 | a category's count is positive iff some book has that category |
| Dashboard.Rows | library-management/frontend/src/pages/Dashboard.tsx:160-161 | one row per category, holding that category's book count |
| Dashboard.CategoryRows | library-management/frontend/src/pages/Dashboard.tsx:160-161 | one row per distinct category, each row's category occurring in the books and its count being that category's filter count (further properties: `CategoryRowsNonEmpty`, `CategoryRowsDistinct`, `CategoryRowsTotal`) |
| Dashboard.CategoryRowsNonEmpty | library-management/frontend/src/pages/Dashboard.tsx:160-161 | every listed category has at least one book |
| Dashboard.CategoryRowsDistinct | library-management/frontend/src/pages/Dashboard.tsx:160 | each category is listed once, and exactly the categories some book has |
| Dashboard.CategoryRowsTotal | library-management/frontend/src/pages/Dashboard.tsx:160-161 | the category counts add up to the number of books |
| IssuedBooksPage.IsOverdue | library-management/frontend/src/pages/IssuedBooks.tsx:50-55 | overdue iff still Issued and the due date is before today |
| IssuedBooksPage.StatusBadge | library-management/frontend/src/pages/IssuedBooks.tsx:148-171 | Returned iff Returned; Overdue iff Issued and past due; Issued iff Issued and not yet due |
| IssuedBooksPage.OverdueBadgeMeansFine | library-management/frontend/src/pages/IssuedBooks.tsx:148-171 | a loan shown as Overdue would be fined at least 5 if returned now |
| IssuedBooksPage.FineCellOf | library-management/frontend/src/pages/IssuedBooks.tsx:176 | an amount is shown iff the fine is present and positive, and it is that fine |
| IssuedBooksPage.FineCellAfterReturn | library-management/frontend/src/pages/IssuedBooks.tsx:176 | a loan returned on time shows no fine; one returned late shows its fine |
| IssuedBooksPage.ActionFor | library-management/frontend/src/pages/IssuedBooks.tsx:179-192 | a Return button is offered iff the viewer is an admin (only an admin's table has the Actions cell) and the loan is Issued |
| IssuedBooksPage.ReturnOfferedOnlyForIssued | library-management/frontend/src/pages/IssuedBooks.tsx:181-188 | every loan offered a Return button is accepted by the guarded return, which answers with its returned record |
| IssuedBooksPage.AvailableBooks | library-management/frontend/src/pages/IssuedBooks.tsx:18 | exactly the books with an available copy, each with its multiplicity |
| IssuedBooksPage.OfferedBooksCanBeIssued | library-management/frontend/src/pages/IssuedBooks.tsx:216 | while the client agrees with the server, every offered book passes the server's availability check |
| IssuedBooksPage.DefaultDueDate | library-management/frontend/src/pages/IssuedBooks.tsx:21-28 | the default due date is a midnight between 13 and 14 days after today |
| IssuedBooksPage.DefaultDueDateGraceTime | library-management/frontend/src/pages/IssuedBooks.tsx:21-28 | with the default due date, a return within 13 days is never fined |

## Left out

- Persistence: the document store, `populate` and the awaits are modelled as updates of maps. A save that fails partway (the loan saved but the book not) is not modelled.
- Concurrency: two requests racing on the same book's read-modify-write of `availableCopies` are not modelled. Each operation is atomic in the model.
- Routing, authentication and the role middleware: the caller's identity and role are parameters (`Principal`). The route files only wire handlers.
- The clock and fresh ids: `Date.now()`, `new Date()` and new ObjectIds are parameters. Fresh ids are required to be unused.
- IssuedBooksPage.DefaultDueDate: assumes the browser's time zone is UTC. Local-time `setDate`, daylight-saving shifts and `toISOString` formatting are not modelled.
- Date strings: the model uses millisecond instants throughout. Parsing a `dueDate` string and invalid dates are not modelled.
- React rendering, the confirmation dialog, form state, `console` logging and the API client are not modelled. The model keeps the values the pages compute.
- `getBooks` and the client's `fetchBooks`, `fetchUsers` and `fetchIssuedBooks` are not modelled. Each replaces a list wholesale, and there is nothing to state.
- Dashboard.TotalCopies: the model does not capture `|| 0` for a missing or non-numeric count. The model's books always carry both counts, as the client's `Book` type declares.
- Dashboard.Distinct: the order `new Set` gives (first appearance) is what the definition computes, but no contract states it; only membership and the absence of duplicates are promised.
- BookController.Revised: a `totalCopies` that is null or not a number is not modelled. Only "given" and "absent" are.
- BookController.NewBook: models a refused save as `Err(Invalid)`. In the source the handler has no catch, so the request fails without a response.
- The dashboard's `totalUsers` figure (`users.length`) and the admin-or-student choice of which figures to show are not modelled. Both are direct readings.
- IssuedBookController.Circulation.IssueBook: returns the stored record, not its populated form; the book exists at that point, so its populated reference would always be filled in.
- Which user fields are populated into a loan is not modelled. Only the book reference matters to the client's state.
- The user controller (`userController.js`) and its model are not part of this model. Users appear only as client list entries.
- Failures of the catch-all 500 path in `getIssuedBooks` are not modelled. The model's store does not fail.

## Findings

| source | as written | input that shows it | evidently intended | confidence | as-written member | corrected member |
|---|---|---|---|---|---|---|
| library-management/backend/controllers/issuedBookController.js:70-100 | returnBook restocks the loan's book and re-stamps the loan without checking that it is still Issued | a book with 1 copy, 1 available, and its loan already Returned: returning that loan again leaves 2 of 1 copies available | a loan goes from Issued to Returned once; a second return is refused and changes nothing | medium, not executed | IssuedBookController.RepeatReturnBreaksLedger | IssuedBookController.Circulation.ReturnBookGuarded |
