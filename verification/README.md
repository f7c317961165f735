# Library lending rules, modelled in Dafny

A model of the business rules of a library-management REST API (Laravel): the
loan state machine of a book (`borrow` / `return` over the status column and the
borrow-record ledger), the late-fine calculation and payment, the thirteen
authorization gates registered at boot, and the review rules (rating range,
ownership). Everything else in the API is framework CRUD and is not modelled.

Files:

- `common.dfy` — `Option`, `Result` and the refusal kinds (`ApiError`) with their HTTP codes.
- `gates.dfy` — module `Gates`: the gate table over the user's role string.
- `books.dfy` — module `Books`: books, borrow records, store/update validation,
  borrow/return; pure step functions on a `Catalog` value and the class `Library`
  whose methods update the tables in place and are proved equal to the step functions.
- `fines.dfy` — module `Fines`: fine calculation and payment, class `FineLedger`.
- `reviews.dfy` — module `Reviews`: store/update/destroy, class `ReviewTable`.

Modelling choices:

- Timestamps are integer seconds; `now` is a parameter of every operation that reads
  the clock. The loan period is `14 * 86400` seconds; whole days late are
  `(returned - due) / 86400`, which (the difference being positive) drops the
  remainder of a day; the rate is one integer unit per day.
- A book's `status` is kept as the string column the controllers compare with `!==`.
  `WellFormed` says every status is "Available" or "Borrowed"; store and update keep it.
  The model does not assume that "Borrowed" coincides with an open record, because
  store and update may set the status directly.
- Borrow records and fines are never deleted, so their ids are their position plus one.
  "The latest record" of a book is the last one in creation order (records created in
  the same second are ordered by creation).
- `return` stamps the book's latest record without looking at its user or at its
  `returned_at`; the model requires that a book whose status is "Borrowed" has at least
  one record (`CanReturn`), since the controller dereferences the fetched record
  unconditionally.
- A path id with no row (route-model binding) is answered `NotFound` where the model looks the row up (book borrow, return and update; review update and destroy); the exceptions are listed under "## Left out".
- Loans are "consistent" (`LoansConsistent`) when a book is Borrowed exactly if it has an open
  record and an open record is always its book's latest. Borrow and return keep this; a status
  written through store or update can break it, so no operation assumes it.
- Review `update` checks ownership before it validates the input; `destroy` checks no
  ownership at all, as written.

## Model

| member | source | states |
|---|---|---|
| Common.HttpStatus | app/Http/Controllers/Api/BookController.php:78-80 | refusals map to stable codes: 400 for not-available / not-borrowed (BookController.php lines 79 and 98), 403 forbidden (ReviewController.php line 120), 404 for a path id with no row (the framework's route-model binding), 422 invalid input (the framework's `validate`); the refusal lemmas below state the code each refusal is answered with |
| Gates.Lookup | app/Providers/AppServiceProvider.php:29-84 | a gate found under a name is the one registered under that name |
| Gates.Allows | app/Providers/AppServiceProvider.php:29-84 | a gate passes only for one of the three roles Admin, Librarian, Member |
| Gates.AllowsNamed | app/Providers/AppServiceProvider.php:29-84 | a named check passes iff some gate is registered under that name and passes for the user |
| Gates.NamesRoundTrip | app/Providers/AppServiceProvider.php:29-84 | every gate is found again under its own registered name, so no registration overwrites another |
| Gates.NamesDistinct | app/Providers/AppServiceProvider.php:29-84 | the thirteen gate names are pairwise distinct |
| Gates.StaffGatesAdminAndLibrarian | app/Providers/AppServiceProvider.php:29-84 | manage-books (lines 29-31), manage-authors (47-49), view-borrow-records (68-70), manage-fines (73-75) and manage-reservations (82-84) hold exactly for Admin and Librarian |
| Gates.AdminGatesAdminOnly | app/Providers/AppServiceProvider.php:33-66 | delete-books, delete-authors, view-users, manage-users, delete-users hold exactly for Admin |
| Gates.MemberGatesMemberOnly | app/Providers/AppServiceProvider.php:38-79 | borrow-books, return-books, pay-fines hold exactly for Member |
| Gates.GatesPartitioned | app/Providers/AppServiceProvider.php:29-84 | the three audiences cover all gates and are pairwise disjoint |
| Gates.NoBorrowerManagesBooks | app/Providers/AppServiceProvider.php:29-40 | no user is granted both borrow-books and manage-books |
| Gates.MemberHoldsNoStaffGate | app/Providers/AppServiceProvider.php:29-84 | a user holding a member gate holds no staff or admin gate |
| Gates.AdminCoversLibrarian | app/Providers/AppServiceProvider.php:29-84 | every gate a Librarian passes, an Admin passes |
| Gates.UnknownRoleDenied | app/Providers/AppServiceProvider.php:29-84 | a role other than Admin, Librarian, Member is denied by every gate name, registered or not |
| Gates.UnregisteredDenied | app/Providers/AppServiceProvider.php:29-84 | a name under which no gate is registered is denied to every user |
| Gates.RoleAlone | app/Providers/AppServiceProvider.php:29-84 | two users with the same role get the same answer from every gate |
| Books.BorrowStep | app/Http/Controllers/Api/BookController.php:76-92 | borrow fails iff the book is missing or not Available and then changes nothing; on success the new record is appended to the ledger, no book is added or removed, and the book is Borrowed |
| Books.ReturnStep | app/Http/Controllers/Api/BookController.php:95-109 | return fails iff the book is missing or not Borrowed and then changes nothing; on success the ledger keeps its length, the book is Available and the answered record is that book's, stamped returned now |
| Books.StoreStep | app/Http/Controllers/Api/BookController.php:37-49 | store succeeds iff the request validates; a refused store changes nothing; a stored request is the only new row and the ledger is untouched |
| Books.UpdateStep | app/Http/Controllers/Api/BookController.php:52-64 | update succeeds iff the book exists and the patch validates; a refused update changes nothing; a successful one rewrites that book only |
| Books.LatestRecord | app/Http/Controllers/Api/BookController.php:104 | returns the index of the book's most recently created record (no later record is the book's), or None exactly when the book has no record |
| Books.BorrowRefusedUnlessAvailable | app/Http/Controllers/Api/BookController.php:78-80 | borrow fails iff the book is missing or not Available, and a failed borrow changes nothing; a book that is not Available is answered NotAvailable with code 400 |
| Books.BorrowAppendsRecord | app/Http/Controllers/Api/BookController.php:82-89 | borrowing an Available book sets it Borrowed (other fields kept) and appends exactly one record: the requester's, for that book, borrowed now, due 14 days later, not returned |
| Books.BorrowFrame | app/Http/Controllers/Api/BookController.php:76-92 | borrow leaves every other book and every existing record unchanged |
| Books.BorrowKeepsWellFormed | app/Http/Controllers/Api/BookController.php:82-89 | borrow keeps statuses in {Available, Borrowed} and record ids sequential |
| Books.ReturnRefusedUnlessBorrowed | app/Http/Controllers/Api/BookController.php:97-99 | return fails iff the book is missing or not Borrowed, and a failed return changes nothing; a book that is not Borrowed is answered NotBorrowed with code 400 |
| Books.ReturnStampsLatest | app/Http/Controllers/Api/BookController.php:101-106 | returning a Borrowed book sets it Available and sets returned_at = now on its most recently created record, whoever its user and whatever its returned_at, and answers that record |
| Books.ReturnFrame | app/Http/Controllers/Api/BookController.php:95-109 | return leaves every other book unchanged, keeps the ledger's length, leaves other books' records alone and changes at most one record |
| Books.ReturnKeepsWellFormed | app/Http/Controllers/Api/BookController.php:101-106 | return keeps statuses in {Available, Borrowed} and record ids sequential |
| Books.BorrowReturnRoundTrip | app/Http/Controllers/Api/BookController.php:82-106 | borrow then return restores the book exactly, and the record the borrow created is the one stamped with the return time |
| Books.ConsistentCanReturn | app/Http/Controllers/Api/BookController.php:97-105 | when loans are consistent, a Borrowed book always has a record for return to fetch |
| Books.BorrowKeepsConsistent | app/Http/Controllers/Api/BookController.php:78-89 | borrow keeps "Borrowed iff an open record exists, and an open record is its book's latest" |
| Books.ReturnClosesOpenLoan | app/Http/Controllers/Api/BookController.php:101-106 | with consistent loans, return stamps exactly the book's open record, leaves the book with no open record and keeps loans consistent |
| Books.ReturnKeepsConsistent | app/Http/Controllers/Api/BookController.php:97-106 | return keeps loans consistent |
| Books.UpdateCanBreakConsistency | app/Http/Controllers/Api/BookController.php:59-62 | setting status to Borrowed through update yields a Borrowed book with no open record, so "Borrowed iff open record" is not a global invariant |
| Books.StoreCanBreakConsistency | app/Http/Controllers/Api/BookController.php:39-48 | storing a book with status Borrowed into an empty catalog succeeds and yields a Borrowed book with no open record |
| Books.ReturnOverwritesClosedRecord | app/Http/Controllers/Api/BookController.php:104-106 | for every catalog: a Borrowed book whose latest record is already closed can be returned, and return answers that record with its returned_at overwritten by now |
| Books.ReturnOverwritesClosedRecordExample | app/Http/Controllers/Api/BookController.php:104-106 | a worked instance: user 7's closed loan of book 1 gets a second return time |
| Books.StoreOutcome | app/Http/Controllers/Api/BookController.php:39-48 | store succeeds iff title, isbn (unique) and status validate; a stored book gets a fresh id; a refused one stores nothing and is answered with code 422 |
| Books.StoreKeepsWellFormed | app/Http/Controllers/Api/BookController.php:44 | after store every status is Available or Borrowed |
| Books.UpdateKeepsWellFormed | app/Http/Controllers/Api/BookController.php:59 | after update every status is Available or Borrowed |
| Books.UpdateOutcome | app/Http/Controllers/Api/BookController.php:54-63 | update succeeds iff the book exists and the present fields validate; each of title, isbn, published date, author and status takes the request's value when present and keeps the old one when absent; other books and the ledger are unchanged |
| Books.Library.Store | app/Http/Controllers/Api/BookController.php:37-49 | the in-place store answers and leaves the tables as StoreStep says, keeping the table invariant |
| Books.Library.Update | app/Http/Controllers/Api/BookController.php:52-64 | the in-place update answers and leaves the tables as UpdateStep says |
| Books.Library.Borrow | app/Http/Controllers/Api/BookController.php:76-92 | the in-place borrow answers and leaves the tables as BorrowStep says |
| Books.Library.Return | app/Http/Controllers/Api/BookController.php:95-109 | the in-place return answers and leaves the tables as ReturnStep says |
| Fines.EffectiveReturn | app/Http/Controllers/Api/FineController.php:98 | lateness is measured at returned_at when it is set, and at the current time otherwise |
| Fines.DaysLate | app/Http/Controllers/Api/FineController.php:101 | the result d is the number of whole days in the lateness: d days fit, d + 1 do not |
| Fines.FineFor | app/Http/Controllers/Api/FineController.php:97-108 | no fine iff the effective return (returned_at, else now) is not after due_at; otherwise an unpaid fine for the record's user and id whose amount is the whole days late |
| Fines.AfterCalculate | app/Http/Controllers/Api/FineController.php:97-113 | a calculation keeps every existing fine and appends at most one; it appends one exactly when the effective return is after due_at, and that one is FineFor the record under the next id |
| Fines.ReturnedRecordIgnoresClock | app/Http/Controllers/Api/FineController.php:98 | once returned_at is set, the current time does not affect the fine |
| Fines.FineCountsWholeDays | app/Http/Controllers/Api/FineController.php:100-102 | a return k days and s seconds (s < one day) after due is fined k units |
| Fines.LessThanADayLateFinesZero | app/Http/Controllers/Api/FineController.php:100-108 | a return less than a day late still creates a fine, of zero units |
| Fines.OpenLoanFineGrows | app/Http/Controllers/Api/FineController.php:98-102 | while the book is out, a later calculation is fined at least as much |
| Fines.OnTimeLeavesLedger | app/Http/Controllers/Api/FineController.php:113 | not late: the fine ledger is unchanged |
| Fines.LateAppendsOneFine | app/Http/Controllers/Api/FineController.php:104-108 | late: exactly one unpaid fine is appended, carrying the record's user id and the record's id, amount = whole days late |
| Fines.CalculationNotIdempotent | app/Http/Controllers/Api/FineController.php:104 | two late calculations on one record append two fines with the same amount and distinct ids |
| Fines.PayResult | app/Http/Controllers/Api/FineController.php:144-150 | paying answers success iff the id names a fine, with that fine marked paid; otherwise NotFound, code 404 |
| Fines.AfterPay | app/Http/Controllers/Api/FineController.php:144-150 | paying keeps the ledger's length, changes no fine but the named one, and marks the named one paid |
| Fines.PayMarksPaid | app/Http/Controllers/Api/FineController.php:146-147 | paying sets paid on that fine only, keeping amount and every other field; an unknown id changes nothing |
| Fines.PayIdempotent | app/Http/Controllers/Api/FineController.php:146-147 | paying twice gives the same state and answer as paying once |
| Fines.TwoDaysLateScenario | app/Http/Controllers/Api/FineController.php:95-114 | borrow, return two days (plus under a day) after due, then calculate: a fine of 2 units for the borrower |
| Fines.FineLedger.CalculateFine | app/Http/Controllers/Api/FineController.php:95-114 | the in-place calculation answers FineFor and appends it, or leaves the ledger alone |
| Fines.FineLedger.PayFine | app/Http/Controllers/Api/FineController.php:144-150 | the in-place payment answers and leaves the ledger as the pay functions say |
| Reviews.Validate | app/Http/Controllers/Api/ReviewController.php:76-79 | input passes iff the comment is present and non-empty and the rating is present and in [1,5]; the validated fields are the input's |
| Reviews.StoreStep | app/Http/Controllers/Api/ReviewController.php:74-88 | store succeeds iff the input validates; a refusal (code 422) changes nothing; a stored review is on the path's book, by the requester, and is the only row added or changed |
| Reviews.UpdateStep | app/Http/Controllers/Api/ReviewController.php:116-131 | update succeeds iff the review exists, the requester owns it and the input validates; a missing review is NotFound; a refusal changes nothing; success rewrites that review only |
| Reviews.DestroyStep | app/Http/Controllers/Api/ReviewController.php:151-156 | destroy succeeds iff the review exists and removes exactly that row; a missing review is NotFound and changes nothing |
| Reviews.StoreOutcome | app/Http/Controllers/Api/ReviewController.php:76-85 | store creates a review only from valid input, owned by the requester, on the path's book, under a fresh id; invalid input creates nothing and is answered with code 422 |
| Reviews.NonOwnerForbidden | app/Http/Controllers/Api/ReviewController.php:119-121 | a non-owner gets Forbidden, code 403, whatever the input, and nothing changes |
| Reviews.OwnerUpdateOutcome | app/Http/Controllers/Api/ReviewController.php:123-128 | the owner's update succeeds iff the input validates and replaces comment and rating only, keeping id, owner and book |
| Reviews.DestroyOutcome | app/Http/Controllers/Api/ReviewController.php:151-153 | destroy removes exactly that review and keeps the others unchanged |
| Reviews.StepsKeepRatingsInRange | app/Http/Controllers/Api/ReviewController.php:78-128 | after store, update or destroy every stored rating is in [1,5] |
| Reviews.ReviewTable.Store | app/Http/Controllers/Api/ReviewController.php:74-88 | the in-place store answers and leaves the table as StoreStep says |
| Reviews.ReviewTable.Update | app/Http/Controllers/Api/ReviewController.php:116-131 | the in-place update answers and leaves the table as UpdateStep says |
| Reviews.ReviewTable.Destroy | app/Http/Controllers/Api/ReviewController.php:151-156 | the in-place destroy answers and leaves the table as DestroyStep says |

## Left out

- Listing, `show`, pagination, JSON rendering and the `LIKE` search of the index actions: these are query and collation semantics, not business rules.
- Book `destroy`, authors, users (`UserController`, password hashing), recommendations and routing: framework CRUD or calls into code that is not part of this model.
- Reservations: the only reservation controller lists reservations; no reserve, confirm or cancel operation exists in the code, so none is modelled.
- Store/update validation of `published_date` (a date) and `author_id` (an existing author) is not modelled; title (required, at most 255 characters), ISBN (required, unique) and status (Available or Borrowed) are. "Required" is modelled as "non-empty"; the framework's trimming of whitespace is not.
- Reviews.Validate: a comment made only of whitespace is trimmed to empty by the framework and then refused by `required`; the model accepts it, since whitespace trimming is not modelled.
- Reviews.StoreStep: the model assumes a reviews relation from a book to its reviews; app/Models/Book.php declares only `author` and `borrowRecords`, so as written the call at ReviewController.php line 81 fails with a server error (500) after the input has validated, and no review is stored.
- Reviews.Validate: a rating given as a numeric string, which the framework's `integer` rule also admits, is represented by its integer value or by None; string typing of the comment is not modelled.
- Clock and date parsing: `now` is a parameter; calendar-aware day differences and the date library's version-specific sign and fractional-day behaviour of its day difference are not modelled.
- Fines.FineFor: the amount is an integer number of units; the source's multiplication by the float 1.00 is not modelled.
- Transactions and concurrency: borrow and return write the book and the record in two separate saves with no lock; the model treats each operation as one atomic step.
- Books.Library.Return: a Borrowed book with no borrow record at all (where the source dereferences null after having already saved the status) is excluded by the precondition `CanReturn` rather than modelled.
- Borrow reads the clock twice (for `borrowed_at` and for `due_at`); the model takes both readings as the same instant, so `due_at` is exactly `borrowed_at` plus 14 days. Adding 14 days is modelled as adding 14 × 86400 seconds (no daylight-saving shifts).
- Fines.FineLedger.CalculateFine: the borrow record is taken as already resolved from the path (`calculateFine(BorrowRecord $borrowRecord)`), so the 404 for a record id with no row is not modelled, and the record is not tied to the `Library` ledger of borrow records.
- Review store takes the path's book as already resolved; a missing book (answered 404 by route binding) is not modelled there.
- Ties in `created_at` among a book's records are resolved by creation order; the database's actual tie order is not modelled.
