/** The book catalogue and the borrow ledger: creating and editing books, and the
    two-state loan machine (borrow / return) over the book's status. */
module Books {

  import opened Common

  const AVAILABLE: string := "Available"
  const BORROWED: string := "Borrowed"

  /** Timestamps are whole seconds. */
  const DAY: int := 86400
  /** The fixed borrowing period of two weeks. */
  const LOAN_PERIOD: int := 14 * DAY

  type BookId = nat
  type UserId = nat

  /** A row of the books table; `status` is the string column the controllers compare. */
  datatype Book = Book(title: string, isbn: string, publishedDate: int, authorId: nat, status: string)

  /** A row of the borrow_records table. `returnedAt` is None while the book is out. */
  datatype BorrowRecord = BorrowRecord(
    id: nat,
    userId: UserId,
    bookId: BookId,
    borrowedAt: int,
    dueAt: int,
    returnedAt: Option<int>)

  /** The stored state the controller works on: books by id, the borrow records in
      creation order, and the next id the books table hands out. */
  datatype Catalog = Catalog(books: map<BookId, Book>, records: seq<BorrowRecord>, nextBookId: nat)

  /** What an operation answers together with the state it leaves behind. */
  datatype Step<+T> = Step(result: Result<T>, after: Catalog)

  predicate ValidStatus(s: string)
  {
    s == AVAILABLE || s == BORROWED
  }

  /** Every status is one of the two the validation rules admit, every book id was
      handed out already, and records are numbered 1, 2, ... in creation order. */
  predicate WellFormed(c: Catalog)
  {
    && (forall b | b in c.books :: b < c.nextBookId && ValidStatus(c.books[b].status))
    && (forall i | 0 <= i < |c.records| :: c.records[i].id == i + 1)
  }

  predicate HasRecord(records: seq<BorrowRecord>, b: BookId)
  {
    exists j | 0 <= j < |records| :: records[j].bookId == b
  }

  /** Index `i` holds the most recently created record of book `b`. */
  predicate IsLatestFor(records: seq<BorrowRecord>, i: nat, b: BookId)
  {
    i < |records| && records[i].bookId == b &&
    forall j | i < j < |records| :: records[j].bookId != b
  }

  /** The book's latest record, newest first, with no filter on the user or on
      `returnedAt`. */
  function LatestRecord(records: seq<BorrowRecord>, b: BookId): (r: Option<nat>)
    ensures r.Some? ==> IsLatestFor(records, r.value, b)
    ensures r.None? <==> !HasRecord(records, b)
  {
    if |records| == 0 then None
    else if records[|records| - 1].bookId == b then Some(|records| - 1)
    else LatestRecord(records[..|records| - 1], b)
  }

  // ---------------------------------------------------------------------------
  // Borrow and return

  function BorrowStep(c: Catalog, b: BookId, user: UserId, now: int): (s: Step<BorrowRecord>)
    ensures s.result.Failure? <==> b !in c.books || c.books[b].status != AVAILABLE
    ensures s.result.Failure? ==> s.after == c
    ensures s.result.Success? ==>
      && s.after.records == c.records + [s.result.value]
      && s.after.books.Keys == c.books.Keys
      && s.after.books[b].status == BORROWED
  {
    if b !in c.books then Step(Failure(NotFound), c)
    else if c.books[b].status != AVAILABLE then Step(Failure(NotAvailable), c)
    else
      var rec := BorrowRecord(|c.records| + 1, user, b, now, now + LOAN_PERIOD, None);
      Step(Success(rec), c.(books := c.books[b := c.books[b].(status := BORROWED)],
                            records := c.records + [rec]))
  }

  /** The controller dereferences the fetched record without a null check, so a
      borrowed book must have at least one record. */
  predicate CanReturn(c: Catalog, b: BookId)
  {
    b in c.books && c.books[b].status == BORROWED ==> HasRecord(c.records, b)
  }

  function ReturnStep(c: Catalog, b: BookId, now: int): (s: Step<BorrowRecord>)
    requires CanReturn(c, b)
    ensures s.result.Failure? <==> b !in c.books || c.books[b].status != BORROWED
    ensures s.result.Failure? ==> s.after == c
    ensures s.result.Success? ==>
      && |s.after.records| == |c.records|
      && s.after.books.Keys == c.books.Keys
      && s.after.books[b].status == AVAILABLE
      && s.result.value.bookId == b
      && s.result.value.returnedAt == Some(now)
  {
    if b !in c.books then Step(Failure(NotFound), c)
    else if c.books[b].status != BORROWED then Step(Failure(NotBorrowed), c)
    else
      var i := LatestRecord(c.records, b).value;
      var rec := c.records[i].(returnedAt := Some(now));
      Step(Success(rec), c.(books := c.books[b := c.books[b].(status := AVAILABLE)],
                            records := c.records[i := rec]))
  }

  // ---------------------------------------------------------------------------
  // Store and update (only the validation rules that concern the stored row)

  predicate TitleOk(t: string)
  {
    0 < |t| <= 255
  }

  /** No book other than `self` already uses `isbn`. */
  predicate IsbnFree(c: Catalog, isbn: string, self: Option<BookId>)
  {
    forall k | k in c.books && Some(k) != self :: c.books[k].isbn != isbn
  }

  predicate StoreValid(c: Catalog, req: Book)
  {
    TitleOk(req.title) && req.isbn != "" && IsbnFree(c, req.isbn, None) && ValidStatus(req.status)
  }

  function StoreStep(c: Catalog, req: Book): (s: Step<BookId>)
    ensures s.result.Success? <==> StoreValid(c, req)
    ensures s.result.Failure? ==> s.after == c
    ensures s.result.Success? ==>
      s.after.books == c.books[s.result.value := req] && s.after.records == c.records
  {
    if !StoreValid(c, req) then Step(Failure(Unprocessable), c)
    else Step(Success(c.nextBookId),
              c.(books := c.books[c.nextBookId := req], nextBookId := c.nextBookId + 1))
  }

  /** The fields of an update request; an absent field is left as it is. */
  datatype BookPatch = BookPatch(
    title: Option<string>,
    isbn: Option<string>,
    publishedDate: Option<int>,
    authorId: Option<nat>,
    status: Option<string>)

  predicate PatchValid(c: Catalog, b: BookId, p: BookPatch)
  {
    && (p.title.Some? ==> TitleOk(p.title.value))
    && (p.isbn.Some? ==> p.isbn.value != "" && IsbnFree(c, p.isbn.value, Some(b)))
    && (p.status.Some? ==> ValidStatus(p.status.value))
  }

  function Or<T>(o: Option<T>, default: T): T
  {
    if o.Some? then o.value else default
  }

  function Patched(book: Book, p: BookPatch): Book
  {
    Book(Or(p.title, book.title), Or(p.isbn, book.isbn), Or(p.publishedDate, book.publishedDate),
         Or(p.authorId, book.authorId), Or(p.status, book.status))
  }

  function UpdateStep(c: Catalog, b: BookId, p: BookPatch): (s: Step<Book>)
    ensures s.result.Success? <==> b in c.books && PatchValid(c, b, p)
    ensures s.result.Failure? ==> s.after == c
    ensures s.result.Success? ==>
      s.after.books == c.books[b := s.result.value] && s.after.records == c.records
  {
    if b !in c.books then Step(Failure(NotFound), c)
    else if !PatchValid(c, b, p) then Step(Failure(Unprocessable), c)
    else
      var book := Patched(c.books[b], p);
      Step(Success(book), c.(books := c.books[b := book]))
  }

  // ---------------------------------------------------------------------------
  // Properties of borrow

  /** Borrowing anything but an existing Available book is refused and changes nothing. */
  lemma BorrowRefusedUnlessAvailable(c: Catalog, b: BookId, user: UserId, now: int)
    ensures var s := BorrowStep(c, b, user, now);
      (s.result.Failure? <==> b !in c.books || c.books[b].status != AVAILABLE) &&
      (s.result.Failure? ==> s.after == c) &&
      (b !in c.books ==> s.result == Failure(NotFound)) &&
      (b in c.books && c.books[b].status != AVAILABLE ==>
         s.result == Failure(NotAvailable) && HttpStatus(s.result.error) == 400)
  {
  }

  /** Borrowing an Available book marks it Borrowed and appends exactly one record:
      the requester's, due two weeks after it was borrowed, not yet returned. */
  lemma BorrowAppendsRecord(c: Catalog, b: BookId, user: UserId, now: int)
    requires b in c.books && c.books[b].status == AVAILABLE
    ensures var s := BorrowStep(c, b, user, now);
      && s.result.Success?
      && s.after.books[b] == c.books[b].(status := BORROWED)
      && s.after.records == c.records + [s.result.value]
      && s.result.value.userId == user
      && s.result.value.bookId == b
      && s.result.value.borrowedAt == now
      && s.result.value.dueAt == s.result.value.borrowedAt + 14 * 86400
      && s.result.value.returnedAt.None?
  {
  }

  /** Borrow touches no other book and no existing record. */
  lemma BorrowFrame(c: Catalog, b: BookId, user: UserId, now: int)
    ensures var s := BorrowStep(c, b, user, now);
      && s.after.books.Keys == c.books.Keys
      && s.after.nextBookId == c.nextBookId
      && (forall k | k in c.books && k != b :: s.after.books[k] == c.books[k])
      && |s.after.records| >= |c.records|
      && (forall i | 0 <= i < |c.records| :: s.after.records[i] == c.records[i])
  {
  }

  lemma BorrowKeepsWellFormed(c: Catalog, b: BookId, user: UserId, now: int)
    requires WellFormed(c)
    ensures WellFormed(BorrowStep(c, b, user, now).after)
  {
  }

  // ---------------------------------------------------------------------------
  // Properties of return

  /** Returning anything but an existing Borrowed book is refused and changes nothing. */
  lemma ReturnRefusedUnlessBorrowed(c: Catalog, b: BookId, now: int)
    requires CanReturn(c, b)
    ensures var s := ReturnStep(c, b, now);
      (s.result.Failure? <==> b !in c.books || c.books[b].status != BORROWED) &&
      (s.result.Failure? ==> s.after == c) &&
      (b !in c.books ==> s.result == Failure(NotFound)) &&
      (b in c.books && c.books[b].status != BORROWED ==>
         s.result == Failure(NotBorrowed) && HttpStatus(s.result.error) == 400)
  {
  }

  /** Returning a Borrowed book marks it Available and stamps `now` on the book's
      most recently created record, whoever borrowed it and whether or not it was
      already stamped; no other record changes. */
  lemma ReturnStampsLatest(c: Catalog, b: BookId, now: int, i: nat)
    requires b in c.books && c.books[b].status == BORROWED
    requires IsLatestFor(c.records, i, b)
    ensures CanReturn(c, b)
    ensures var s := ReturnStep(c, b, now);
      && s.after.books[b] == c.books[b].(status := AVAILABLE)
      && s.after.records == c.records[i := c.records[i].(returnedAt := Some(now))]
      && s.result == Success(s.after.records[i])
  {
  }

  /** Return touches no other book, keeps the ledger's length and changes at most one
      record. */
  lemma ReturnFrame(c: Catalog, b: BookId, now: int)
    requires CanReturn(c, b)
    ensures var s := ReturnStep(c, b, now);
      && s.after.books.Keys == c.books.Keys
      && s.after.nextBookId == c.nextBookId
      && (forall k | k in c.books && k != b :: s.after.books[k] == c.books[k])
      && |s.after.records| == |c.records|
      && (forall i | 0 <= i < |c.records| && c.records[i].bookId != b ::
            s.after.records[i] == c.records[i])
      && (forall i, j | 0 <= i < j < |c.records| ::
            s.after.records[i] == c.records[i] || s.after.records[j] == c.records[j])
  {
  }

  lemma ReturnKeepsWellFormed(c: Catalog, b: BookId, now: int)
    requires WellFormed(c) && CanReturn(c, b)
    ensures WellFormed(ReturnStep(c, b, now).after)
  {
  }

  /** Borrow then return restores the book exactly, and the record the borrow
      created is the one the return stamps. */
  lemma BorrowReturnRoundTrip(c: Catalog, b: BookId, user: UserId, t1: int, t2: int)
    requires b in c.books && c.books[b].status == AVAILABLE
    ensures var s1 := BorrowStep(c, b, user, t1);
      CanReturn(s1.after, b) &&
      var s2 := ReturnStep(s1.after, b, t2);
      && s1.result.Success?
      && s2.after.books == c.books
      && s2.result == Success(s1.result.value.(returnedAt := Some(t2)))
      && s2.after.records == c.records + [s1.result.value.(returnedAt := Some(t2))]
  {
    var s1 := BorrowStep(c, b, user, t1);
    assert IsLatestFor(s1.after.records, |c.records|, b);
    ReturnStampsLatest(s1.after, b, t2, |c.records|);
    assert c.books[b].(status := BORROWED).(status := AVAILABLE) == c.books[b];
  }

  // ---------------------------------------------------------------------------
  // Loan consistency: what borrow and return keep, and what a direct status edit breaks

  predicate HasOpenRecord(records: seq<BorrowRecord>, b: BookId)
  {
    exists j | 0 <= j < |records| :: records[j].bookId == b && records[j].returnedAt.None?
  }

  /** A book is Borrowed exactly when it has an open record, and an open record is
      always its book's latest. */
  predicate LoansConsistent(c: Catalog)
  {
    && (forall b | b in c.books :: c.books[b].status == BORROWED <==> HasOpenRecord(c.records, b))
    && (forall i | 0 <= i < |c.records| && c.records[i].returnedAt.None? ::
          IsLatestFor(c.records, i, c.records[i].bookId))
  }

  lemma ConsistentCanReturn(c: Catalog, b: BookId)
    requires LoansConsistent(c)
    ensures CanReturn(c, b)
  {
    if b in c.books && c.books[b].status == BORROWED {
      var j :| 0 <= j < |c.records| && c.records[j].bookId == b && c.records[j].returnedAt.None?;
      assert HasRecord(c.records, b);
    }
  }

  lemma LatestUnique(records: seq<BorrowRecord>, i: nat, j: nat, b: BookId)
    requires IsLatestFor(records, i, b) && IsLatestFor(records, j, b)
    ensures i == j
  {
  }

  /** Borrow keeps loans consistent. */
  lemma {:induction false} BorrowKeepsConsistent(c: Catalog, b: BookId, user: UserId, now: int)
    requires LoansConsistent(c)
    ensures LoansConsistent(BorrowStep(c, b, user, now).after)
  {
    var s := BorrowStep(c, b, user, now);
    if s.result.Success? {
      var rs, n := s.after.records, |c.records|;
      assert rs[n].bookId == b && rs[n].returnedAt.None?;
      assert !HasOpenRecord(c.records, b);
      forall k | k in s.after.books
        ensures s.after.books[k].status == BORROWED <==> HasOpenRecord(rs, k)
      {
        if k == b {
          assert HasOpenRecord(rs, b);
        } else {
          if HasOpenRecord(rs, k) {
            var j :| 0 <= j < |rs| && rs[j].bookId == k && rs[j].returnedAt.None?;
            assert j < n && c.records[j] == rs[j];
          }
          if HasOpenRecord(c.records, k) {
            var j :| 0 <= j < n && c.records[j].bookId == k && c.records[j].returnedAt.None?;
            assert rs[j] == c.records[j];
          }
        }
      }
      forall i | 0 <= i < |rs| && rs[i].returnedAt.None?
        ensures IsLatestFor(rs, i, rs[i].bookId)
      {
        if i < n {
          assert rs[i] == c.records[i];
          assert IsLatestFor(c.records, i, c.records[i].bookId);
        }
      }
    }
  }

  /** Under consistent loans, return closes the book's one open record, and afterwards
      the book has none. */
  lemma {:induction false} ReturnClosesOpenLoan(c: Catalog, b: BookId, now: int, i: nat)
    requires LoansConsistent(c)
    requires b in c.books && c.books[b].status == BORROWED
    requires i < |c.records| && c.records[i].bookId == b && c.records[i].returnedAt.None?
    ensures CanReturn(c, b)
    ensures var s := ReturnStep(c, b, now);
      && s.after.records == c.records[i := c.records[i].(returnedAt := Some(now))]
      && !HasOpenRecord(s.after.records, b)
      && LoansConsistent(s.after)
  {
    ConsistentCanReturn(c, b);
    var s := ReturnStep(c, b, now);
    var rs := s.after.records;
    var l := LatestRecord(c.records, b).value;
    LatestUnique(c.records, i, l, b);
    assert rs == c.records[i := c.records[i].(returnedAt := Some(now))];
    if HasOpenRecord(rs, b) {
      var j :| 0 <= j < |rs| && rs[j].bookId == b && rs[j].returnedAt.None?;
      assert j != i && rs[j] == c.records[j];
      LatestUnique(c.records, i, j, b);
    }
    forall k | k in s.after.books
      ensures s.after.books[k].status == BORROWED <==> HasOpenRecord(rs, k)
    {
      if k != b {
        if HasOpenRecord(rs, k) {
          var j :| 0 <= j < |rs| && rs[j].bookId == k && rs[j].returnedAt.None?;
          assert j != i && c.records[j] == rs[j];
        }
        if HasOpenRecord(c.records, k) {
          var j :| 0 <= j < |c.records| && c.records[j].bookId == k && c.records[j].returnedAt.None?;
          assert j != i && rs[j] == c.records[j];
        }
      }
    }
    forall j | 0 <= j < |rs| && rs[j].returnedAt.None?
      ensures IsLatestFor(rs, j, rs[j].bookId)
    {
      assert j != i && rs[j] == c.records[j];
      assert IsLatestFor(c.records, j, c.records[j].bookId);
    }
  }

  /** Return keeps loans consistent. */
  lemma ReturnKeepsConsistent(c: Catalog, b: BookId, now: int)
    requires LoansConsistent(c)
    ensures CanReturn(c, b)
    ensures LoansConsistent(ReturnStep(c, b, now).after)
  {
    ConsistentCanReturn(c, b);
    if b in c.books && c.books[b].status == BORROWED {
      var i :| 0 <= i < |c.records| && c.records[i].bookId == b && c.records[i].returnedAt.None?;
      ReturnClosesOpenLoan(c, b, now, i);
    }
  }

  /** A status written directly by update breaks loan consistency: an Available book
      with no records, updated to Borrowed, is Borrowed with no open record. */
  lemma UpdateCanBreakConsistency()
    ensures var c := Catalog(map[1 := Book("T", "isbn-1", 0, 1, AVAILABLE)], [], 2);
      && LoansConsistent(c)
      && UpdateStep(c, 1, BookPatch(None, None, None, None, Some(BORROWED))).result.Success?
      && !LoansConsistent(UpdateStep(c, 1, BookPatch(None, None, None, None, Some(BORROWED))).after)
  {
    var c := Catalog(map[1 := Book("T", "isbn-1", 0, 1, AVAILABLE)], [], 2);
    var s := UpdateStep(c, 1, BookPatch(None, None, None, None, Some(BORROWED)));
    assert s.after.books[1].status == BORROWED && !HasOpenRecord(s.after.records, 1);
  }

  /** Store may also create a Borrowed book with no open record. */
  lemma StoreCanBreakConsistency()
    ensures var c := Catalog(map[], [], 1);
      && LoansConsistent(c)
      && StoreStep(c, Book("T", "isbn-1", 0, 1, BORROWED)).result.Success?
      && !LoansConsistent(StoreStep(c, Book("T", "isbn-1", 0, 1, BORROWED)).after)
  {
    var c := Catalog(map[], [], 1);
    var s := StoreStep(c, Book("T", "isbn-1", 0, 1, BORROWED));
    assert s.after.books[1].status == BORROWED && !HasOpenRecord(s.after.records, 1);
  }

  /** Because return does not look at `returned_at`, a Borrowed book whose latest
      record is already closed (a status set by update after the loan ended) gets that
      record's return time overwritten. */
  lemma ReturnOverwritesClosedRecord(c: Catalog, b: BookId, now: int, i: nat)
    requires b in c.books && c.books[b].status == BORROWED
    requires IsLatestFor(c.records, i, b) && c.records[i].returnedAt.Some?
    ensures CanReturn(c, b)
    ensures var s := ReturnStep(c, b, now);
      && s.result == Success(c.records[i].(returnedAt := Some(now)))
      && s.after.records[i].returnedAt == Some(now)
  {
    ReturnStampsLatest(c, b, now, i);
  }

  /** An instance: user 7's loan of book 1 ended at `t1`; a later return stamps `t2`. */
  lemma ReturnOverwritesClosedRecordExample(t0: int, t1: int, t2: int)
    ensures var rec := BorrowRecord(1, 7, 1, t0, t0 + LOAN_PERIOD, Some(t1));
      var c := Catalog(map[1 := Book("T", "isbn-1", 0, 1, BORROWED)], [rec], 2);
      && CanReturn(c, 1)
      && ReturnStep(c, 1, t2).result == Success(rec.(returnedAt := Some(t2)))
  {
    var rec := BorrowRecord(1, 7, 1, t0, t0 + LOAN_PERIOD, Some(t1));
    var c := Catalog(map[1 := Book("T", "isbn-1", 0, 1, BORROWED)], [rec], 2);
    ReturnOverwritesClosedRecord(c, 1, t2, 0);
  }

  // ---------------------------------------------------------------------------
  // Properties of store and update

  /** A stored book gets a fresh id; a request that fails validation stores nothing. */
  lemma StoreOutcome(c: Catalog, req: Book)
    requires WellFormed(c)
    ensures var s := StoreStep(c, req);
      && (s.result.Success? <==> StoreValid(c, req))
      && (s.result.Failure? ==>
            s.result.error == Unprocessable && HttpStatus(s.result.error) == 422 && s.after == c)
      && (s.result.Success? ==>
            s.result.value !in c.books &&
            s.after.books == c.books[s.result.value := req] &&
            s.after.records == c.records)
  {
  }

  /** A stored or updated book keeps every status in {Available, Borrowed}. */
  lemma StoreKeepsWellFormed(c: Catalog, req: Book)
    requires WellFormed(c)
    ensures WellFormed(StoreStep(c, req).after)
  {
  }

  lemma UpdateKeepsWellFormed(c: Catalog, b: BookId, p: BookPatch)
    requires WellFormed(c)
    ensures WellFormed(UpdateStep(c, b, p).after)
  {
  }

  /** An update changes exactly the fields it names, on that book only. */
  lemma UpdateOutcome(c: Catalog, b: BookId, p: BookPatch)
    ensures var s := UpdateStep(c, b, p);
      && (s.result.Success? <==> b in c.books && PatchValid(c, b, p))
      && (s.result.Failure? ==> s.after == c)
      && (s.result.Success? ==>
            && s.after.books == c.books[b := s.result.value]
            && s.after.records == c.records
            && (p.title.Some? ==> s.result.value.title == p.title.value)
            && (p.title.None? ==> s.result.value.title == c.books[b].title)
            && (p.isbn.Some? ==> s.result.value.isbn == p.isbn.value)
            && (p.isbn.None? ==> s.result.value.isbn == c.books[b].isbn)
            && (p.publishedDate.Some? ==> s.result.value.publishedDate == p.publishedDate.value)
            && (p.publishedDate.None? ==> s.result.value.publishedDate == c.books[b].publishedDate)
            && (p.authorId.Some? ==> s.result.value.authorId == p.authorId.value)
            && (p.authorId.None? ==> s.result.value.authorId == c.books[b].authorId)
            && (p.status.Some? ==> s.result.value.status == p.status.value)
            && (p.status.None? ==> s.result.value.status == c.books[b].status))
  {
  }

  // ---------------------------------------------------------------------------
  // The controller's object: the tables it reads and writes in place

  class Library {
    var books: map<BookId, Book>
    var records: seq<BorrowRecord>
    var nextBookId: nat

    function Snapshot(): Catalog
      reads this
    {
      Catalog(books, records, nextBookId)
    }

    ghost predicate Valid()
      reads this
    {
      WellFormed(Snapshot())
    }

    constructor ()
      ensures Valid()
      ensures books == map[] && records == [] && nextBookId == 1
    {
      books, records, nextBookId := map[], [], 1;
    }

    method Store(req: Book) returns (r: Result<BookId>)
      requires Valid()
      modifies this
      ensures Valid()
      ensures Step(r, Snapshot()) == StoreStep(old(Snapshot()), req)
    {
      if !StoreValid(Snapshot(), req) {
        return Failure(Unprocessable);
      }
      r := Success(nextBookId);
      books := books[nextBookId := req];
      nextBookId := nextBookId + 1;
      StoreKeepsWellFormed(old(Snapshot()), req);
    }

    method Update(b: BookId, p: BookPatch) returns (r: Result<Book>)
      requires Valid()
      modifies this
      ensures Valid()
      ensures Step(r, Snapshot()) == UpdateStep(old(Snapshot()), b, p)
    {
      if b !in books {
        return Failure(NotFound);
      }
      if !PatchValid(Snapshot(), b, p) {
        return Failure(Unprocessable);
      }
      var book := Patched(books[b], p);
      books := books[b := book];
      r := Success(book);
      UpdateKeepsWellFormed(old(Snapshot()), b, p);
    }

    method Borrow(b: BookId, user: UserId, now: int) returns (r: Result<BorrowRecord>)
      requires Valid()
      modifies this
      ensures Valid()
      ensures Step(r, Snapshot()) == BorrowStep(old(Snapshot()), b, user, now)
    {
      if b !in books {
        return Failure(NotFound);
      }
      if books[b].status != AVAILABLE {
        return Failure(NotAvailable);
      }
      books := books[b := books[b].(status := BORROWED)];
      var rec := BorrowRecord(|records| + 1, user, b, now, now + LOAN_PERIOD, None);
      records := records + [rec];
      r := Success(rec);
      BorrowKeepsWellFormed(old(Snapshot()), b, user, now);
    }

    method Return(b: BookId, now: int) returns (r: Result<BorrowRecord>)
      requires Valid() && CanReturn(Snapshot(), b)
      modifies this
      ensures Valid()
      ensures Step(r, Snapshot()) == ReturnStep(old(Snapshot()), b, now)
    {
      if b !in books {
        return Failure(NotFound);
      }
      if books[b].status != BORROWED {
        return Failure(NotBorrowed);
      }
      books := books[b := books[b].(status := AVAILABLE)];
      var i := LatestRecord(records, b).value;
      var rec := records[i].(returnedAt := Some(now));
      records := records[i := rec];
      r := Success(rec);
      ReturnKeepsWellFormed(old(Snapshot()), b, now);
    }
  }
}
