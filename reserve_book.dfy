/**
 * The `Books::ReserveBook` service. `call` checks its inputs in a fixed
 * order (a present email, an existing book, an available book), each
 * failure with its own error kind and message, and then sets the book's
 * status to `reserved` and records a reservation inside one transaction, so
 * that either both writes happen or neither does. A failure of either write
 * is passed to the caller as it was raised.
 *
 * `Reserve` states the whole effect of `call` on the store; the class below
 * performs it step by step and is proved to agree with it.
 */
module ReserveBook {
  import opened Optional
  import opened Presence
  import opened BookModel
  import opened ReservationModel
  import opened Store

  const EmailMissing := "Email is missing"
  const BookNotFound := "Book not found"
  const BookNotAvailable := "Book is not available"

  /** `Errors::InvalidEmail`, `Errors::NotFound`, `Errors::Unavailable`, and any error raised by a write. */
  datatype Error =
    | InvalidEmail(message: string)
    | NotFound(message: string)
    | Unavailable(message: string)
    | PersistenceError(detail: string)

  /** The hash `call` returns on success. */
  datatype Response = Response(success: bool, bookId: int, status: Status, userEmail: string)

  datatype Result = Success(response: Response) | Failure(error: Error)

  /** What one call returns together with the tables it leaves behind. */
  datatype Step = Step(result: Result, tables: Tables)

  /** `validate_email!` */
  function ValidateEmail(email: Option<string>): (e: Option<Error>)
    ensures e.None? <==> !Blank(email)
    ensures e.Some? ==> e.value == InvalidEmail(EmailMissing)
  {
    if Blank(email) then Some(InvalidEmail(EmailMissing)) else None
  }

  /** `validate_book!`, given what `find_book` returned. */
  function ValidateBook(found: Option<Book>): (e: Option<Error>)
    ensures e.None? <==> found.Some? && IsAvailable(found.value)
    ensures found.None? ==> e == Some(NotFound(BookNotFound))
    ensures found.Some? && !IsAvailable(found.value) ==> e == Some(Unavailable(BookNotAvailable))
  {
    if found.None? then Some(NotFound(BookNotFound))
    else if !IsAvailable(found.value) then Some(Unavailable(BookNotAvailable))
    else None
  }

  /** `build_success_response` */
  function BuildSuccessResponse(bookId: int, email: string): (r: Response) {
    Response(true, bookId, Reserved, email)
  }

  /**
   * One `call` with book id `bookId` and email `email` against the tables
   * `t`, the writes failing as `faults` says. A write failure rolls the
   * transaction back, so the tables are those from before it began.
   */
  function Reserve(t: Tables, bookId: int, email: Option<string>, faults: Faults): (s: Step) {
    match ValidateEmail(email)
    case Some(e) => Step(Failure(e), t)
    case None =>
      match ValidateBook(Find(t, bookId))
      case Some(e) => Step(Failure(e), t)
      case None =>
        var w := WritePair(t, bookId, email.value, faults);
        if w.error.Some? then Step(Failure(PersistenceError(w.error.value)), t)
        else Step(Success(BuildSuccessResponse(bookId, email.value)), w.tables)
  }

  /** A blank email is reported first, whatever the book id and whatever the store holds. */
  lemma BlankEmailFailsFirst(t: Tables, bookId: int, email: Option<string>, faults: Faults)
    requires Blank(email)
    ensures Reserve(t, bookId, email, faults) == Step(Failure(InvalidEmail(EmailMissing)), t)
  {
  }

  /** With a present email, an id that names no book is reported as not found. */
  lemma MissingBookNotFound(t: Tables, bookId: int, email: Option<string>, faults: Faults)
    requires !Blank(email) && bookId !in t.books
    ensures Reserve(t, bookId, email, faults) == Step(Failure(NotFound(BookNotFound)), t)
  {
  }

  /** With a present email, a reserved, checked-out or status-less book is reported as unavailable. */
  lemma UnavailableBook(t: Tables, bookId: int, email: Option<string>, faults: Faults)
    requires !Blank(email) && bookId in t.books && !IsAvailable(t.books[bookId])
    ensures t.books[bookId].status.Some? ==> t.books[bookId].status.value == Reserved || t.books[bookId].status.value == CheckedOut
    ensures Reserve(t, bookId, email, faults) == Step(Failure(Unavailable(BookNotAvailable)), t)
  {
  }

  /** `call` succeeds exactly when every check passes and neither write fails. */
  lemma SuccessIff(t: Tables, bookId: int, email: Option<string>, faults: Faults)
    ensures Reserve(t, bookId, email, faults).result.Success? <==>
      !Blank(email) && bookId in t.books && IsAvailable(t.books[bookId]) && faults == NoFaults
  {
    if !Blank(email) && bookId in t.books && IsAvailable(t.books[bookId]) {
      WritePairErrors(t, bookId, email.value, faults);
    }
  }

  /** Every failure, typed or raised by a write, leaves the store exactly as it was. */
  lemma FailureLeavesStoreUnchanged(t: Tables, bookId: int, email: Option<string>, faults: Faults)
    requires Reserve(t, bookId, email, faults).result.Failure?
    ensures Reserve(t, bookId, email, faults).tables == t
  {
  }

  /**
   * On success the book is `reserved`, its title and description are kept,
   * exactly one reservation for it with the given email is appended, and the
   * caller gets `{success: true, book_id, status: :reserved, user_email}`.
   */
  lemma SuccessEffects(t: Tables, bookId: int, email: Option<string>, faults: Faults)
    requires Reserve(t, bookId, email, faults).result.Success?
    ensures email.Some? && bookId in t.books && t.books[bookId].status == Some(Available)
    ensures var s := Reserve(t, bookId, email, faults);
      && s.tables.books == t.books[bookId := t.books[bookId].(status := Some(Reserved))]
      && s.tables.reservations == t.reservations + [Reservation(bookId, email)]
      && |s.tables.reservations| == |t.reservations| + 1
      && s.result.response == Response(true, bookId, Reserved, email.value)
  {
    SuccessIff(t, bookId, email, faults);
    WritePairErrors(t, bookId, email.value, faults);
  }

  /** A persistence failure is handed back unchanged: it is the error the failing write raised. */
  lemma PersistenceErrorPassedThrough(t: Tables, bookId: int, email: Option<string>, faults: Faults, d: string)
    requires Reserve(t, bookId, email, faults).result == Failure(PersistenceError(d))
    ensures Some(d) == (if faults.onUpdate.Some? then faults.onUpdate else faults.onCreate)
    ensures Reserve(t, bookId, email, faults).tables == t
  {
    WritePairErrors(t, bookId, email.value, faults);
  }

  /**
   * A failing reservation insert after a successful status update rolls both
   * back: the book is still available, no row is added, and the insert's
   * error surfaces.
   */
  lemma CreateFailureRollsBack(t: Tables, bookId: int, email: string, d: string)
    requires !Blank(Some(email)) && bookId in t.books && IsAvailable(t.books[bookId])
    ensures var s := Reserve(t, bookId, Some(email), Faults(None, Some(d)));
      && s.result == Failure(PersistenceError(d))
      && s.tables.books[bookId].status == Some(Available)
      && s.tables.reservations == t.reservations
  {
  }

  /** On every path no other book changes, no book appears or disappears, and the existing reservations stay as they were. */
  lemma NothingElseChanges(t: Tables, bookId: int, email: Option<string>, faults: Faults)
    ensures var s := Reserve(t, bookId, email, faults);
      && s.tables.books.Keys == t.books.Keys
      && (forall j :: j in t.books && j != bookId ==> s.tables.books[j] == t.books[j])
      && t.reservations <= s.tables.reservations
      && |s.tables.reservations| <= |t.reservations| + 1
  {
    var s := Reserve(t, bookId, email, faults);
    if s.result.Success? {
      SuccessEffects(t, bookId, email, faults);
    } else {
      FailureLeavesStoreUnchanged(t, bookId, email, faults);
    }
  }

  /** `book.reservations` grows by the new reservation on success; every other book's list is the same. */
  lemma SuccessExtendsBookReservations(t: Tables, bookId: int, email: Option<string>, faults: Faults, other: int)
    requires Reserve(t, bookId, email, faults).result.Success?
    requires other != bookId
    ensures var after := Reserve(t, bookId, email, faults).tables.reservations;
      && ReservationsOf(bookId, after) == ReservationsOf(bookId, t.reservations) + [Reservation(bookId, email)]
      && ReservationsOf(other, after) == ReservationsOf(other, t.reservations)
  {
    SuccessEffects(t, bookId, email, faults);
    ReservationsOfAppend(bookId, t.reservations, Reservation(bookId, email));
    ReservationsOfAppend(other, t.reservations, Reservation(bookId, email));
  }

  /** A call keeps the stored rows consistent: every reservation still names a book and has an email. */
  lemma ReservePreservesConsistency(t: Tables, bookId: int, email: Option<string>, faults: Faults)
    requires Consistent(t)
    ensures Consistent(Reserve(t, bookId, email, faults).tables)
  {
    if !Blank(email) && bookId in t.books && IsAvailable(t.books[bookId]) {
      WritePairConsistent(t, bookId, email.value, faults);
    }
  }

  /** Reserving twice: the second attempt on the same book finds it reserved. */
  lemma SecondReservationUnavailable(t: Tables, bookId: int, email: Option<string>, email2: Option<string>, faults: Faults)
    requires Reserve(t, bookId, email, faults).result.Success?
    requires !Blank(email2)
    ensures var t2 := Reserve(t, bookId, email, faults).tables;
      Reserve(t2, bookId, email2, faults) == Step(Failure(Unavailable(BookNotAvailable)), t2)
  {
    SuccessEffects(t, bookId, email, faults);
  }

  class ReserveBook {
    const bookId: int
    const userEmail: Option<string>

    /** `initialize(book_id:, email:)` */
    constructor (bookId: int, email: Option<string>)
      ensures this.bookId == bookId && this.userEmail == email
    {
      this.bookId := bookId;
      this.userEmail := email;
    }

    /** `call`, against the store `db`, with the writes failing as `faults` says. */
    method Call(db: Database, faults: Faults) returns (r: Result)
      requires db.Valid()
      modifies db
      ensures db.Valid()
      ensures var s := Reserve(old(db.State()), bookId, userEmail, faults);
        r == s.result && db.State() == s.tables
    {
      var e := ValidateEmail(userEmail);
      if e.Some? {
        return Failure(e.value);
      }
      var book := db.FindBook(bookId);
      e := ValidateBook(book);
      if e.Some? {
        return Failure(e.value);
      }
      var err := ReserveInTransaction(db, faults);
      if err.Some? {
        return Failure(PersistenceError(err.value));
      }
      r := Success(BuildSuccessResponse(bookId, userEmail.value));
    }

    /** `reserve_book`: both writes inside `ActiveRecord::Base.transaction`, rolled back if either raises. */
    method ReserveInTransaction(db: Database, faults: Faults) returns (err: Option<string>)
      requires db.Valid() && bookId in db.books && userEmail.Some?
      modifies db
      ensures db.Valid()
      ensures var w := WritePair(old(db.State()), bookId, userEmail.value, faults);
        err == w.error && db.State() == if err.Some? then old(db.State()) else w.tables
    {
      var saved := db.State();
      err := db.UpdateStatus(bookId, Reserved, faults.onUpdate);
      if err.None? {
        err := db.CreateReservation(Reservation(bookId, userEmail), faults.onCreate);
      }
      if err.Some? {
        db.Restore(saved);
      }
    }
  }
}
