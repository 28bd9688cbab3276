/**
 * `BooksController`: the `reserve` and `index` actions.
 *
 * `reserve` does not use the `ReserveBook` service. It checks existence,
 * then availability, then the email (with its own message, "Email is
 * required"), and performs the two writes one after the other with no
 * transaction, so an insert that fails leaves the book reserved.
 *
 * `index` defaults `page` to 1 and `per_page` to 10, names the cache entry
 * `books_index_<page>_<per_page>`, and on a miss stores the requested page of
 * the title-ordered listing under that key for 30 minutes.
 */
module BooksController {
  import opened Optional
  import opened Presence
  import opened Decimal
  import opened BookModel
  import opened ReservationModel
  import opened Store
  import opened IndexQuery
  import opened CacheStore
  import RB = ReserveBook

  const BookNotFound := "Book not found"
  const BookNotAvailable := "Book is not available"
  const EmailRequired := "Email is required"
  const ReservedMessage := "Book reserved successfully"

  /**
   * What an action sends back: a rendered body with its status (200, 404,
   * 400, 422, 500), or an exception that escapes the action.
   */
  datatype Rendered =
    | Ok(message: string)
    | NotFound(error: string)
    | BadRequest(error: string)
    | UnprocessableEntity(error: string)
    | InternalServerError(error: string)
    | Raised(detail: string)

  function HttpStatus(r: Rendered): (code: int)
    ensures r.Ok? <==> code == 200
    ensures 400 <= code <= 500 <==> !r.Ok?
  {
    match r
    case Ok(_) => 200
    case NotFound(_) => 404
    case BadRequest(_) => 400
    case UnprocessableEntity(_) => 422
    case InternalServerError(_) => 500
    case Raised(_) => 500
  }

  datatype Action = Action(response: Rendered, tables: Tables)

  /** The `reserve` action as written, against the tables `t`. */
  function ReserveAction(t: Tables, id: int, email: Option<string>, faults: Faults): (a: Action) {
    if id !in t.books then Action(NotFound(BookNotFound), t)
    else if !IsAvailable(t.books[id]) then Action(BadRequest(BookNotAvailable), t)
    else if Blank(email) then Action(UnprocessableEntity(EmailRequired), t)
    else
      var w := WritePair(t, id, email.value, faults);
      if w.error.Some? then Action(Raised(w.error.value), w.tables)
      else Action(Ok(ReservedMessage), w.tables)
  }

  /** A missing book is reported first, whatever the email, and nothing is written. */
  lemma ReserveChecksExistenceFirst(t: Tables, id: int, email: Option<string>, faults: Faults)
    requires id !in t.books
    ensures ReserveAction(t, id, email, faults) == Action(NotFound(BookNotFound), t)
    ensures HttpStatus(ReserveAction(t, id, email, faults).response) == 404
  {
  }

  /** An unavailable book is reported before the email is looked at. */
  lemma ReserveChecksAvailabilitySecond(t: Tables, id: int, email: Option<string>, faults: Faults)
    requires id in t.books && !IsAvailable(t.books[id])
    ensures ReserveAction(t, id, email, faults) == Action(BadRequest(BookNotAvailable), t)
    ensures HttpStatus(ReserveAction(t, id, email, faults).response) == 400
  {
  }

  /** A blank email is reported only for an existing, available book, with the controller's own message. */
  lemma ReserveChecksEmailLast(t: Tables, id: int, email: Option<string>, faults: Faults)
    requires id in t.books && IsAvailable(t.books[id]) && Blank(email)
    ensures ReserveAction(t, id, email, faults) == Action(UnprocessableEntity(EmailRequired), t)
    ensures HttpStatus(ReserveAction(t, id, email, faults).response) == 422
  {
  }

  /**
   * When every check passes and no write fails, the action answers 200 and
   * leaves the store exactly as a successful service call does.
   */
  lemma ReserveSuccessMatchesService(t: Tables, id: int, email: Option<string>)
    requires id in t.books && IsAvailable(t.books[id]) && !Blank(email)
    ensures ReserveAction(t, id, email, NoFaults).response == Ok(ReservedMessage)
    ensures RB.Reserve(t, id, email, NoFaults).result.Success?
    ensures ReserveAction(t, id, email, NoFaults).tables == RB.Reserve(t, id, email, NoFaults).tables
    ensures ReserveAction(t, id, email, NoFaults).tables.books[id].status == Some(Reserved)
    ensures ReserveAction(t, id, email, NoFaults).tables.reservations == t.reservations + [Reservation(id, email)]
  {
    RB.SuccessIff(t, id, email, NoFaults);
    RB.SuccessEffects(t, id, email, NoFaults);
  }

  /**
   * Without a transaction the two writes are not atomic: when the insert
   * fails after the update, the error escapes, the book stays reserved and
   * no reservation exists for that attempt.
   */
  lemma ReserveNotAtomic(t: Tables, id: int, email: string, d: string)
    requires id in t.books && IsAvailable(t.books[id]) && !Blank(Some(email))
    ensures var a := ReserveAction(t, id, Some(email), Faults(None, Some(d)));
      && a.response == Raised(d)
      && a.tables.books[id].status == Some(Reserved)
      && a.tables.reservations == t.reservations
  {
  }

  /** The action and the service disagree on a missing book with a blank email, and on the wording of the email error. */
  lemma ReserveOrderDiffersFromService(t: Tables, id: int, email: Option<string>, faults: Faults)
    requires id !in t.books && Blank(email)
    ensures ReserveAction(t, id, email, faults).response == NotFound(BookNotFound)
    ensures RB.Reserve(t, id, email, faults).result == RB.Failure(RB.InvalidEmail(RB.EmailMissing))
    ensures EmailRequired != RB.EmailMissing
  {
    assert EmailRequired[9] != RB.EmailMissing[9];
  }

  /** Every reservation in the store still names a book and has an email after the action, whatever failed. */
  lemma ReserveActionConsistent(t: Tables, id: int, email: Option<string>, faults: Faults)
    requires Consistent(t)
    ensures Consistent(ReserveAction(t, id, email, faults).tables)
  {
    if id in t.books && IsAvailable(t.books[id]) && !Blank(email) {
      WritePairConsistent(t, id, email.value, faults);
    }
  }

  /** `reserve`, step by step against the store `db`. */
  method Reserve(db: Database, id: int, email: Option<string>, faults: Faults) returns (resp: Rendered)
    requires db.Valid()
    modifies db
    ensures db.Valid()
    ensures var a := ReserveAction(old(db.State()), id, email, faults);
      resp == a.response && db.State() == a.tables
  {
    var book := db.FindBook(id);
    if book.None? {
      return NotFound(BookNotFound);
    }
    if !IsAvailable(book.value) {
      return BadRequest(BookNotAvailable);
    }
    if Blank(email) {
      return UnprocessableEntity(EmailRequired);
    }
    var err := db.UpdateStatus(id, Reserved, faults.onUpdate);
    if err.Some? {
      return Raised(err.value);
    }
    err := db.CreateReservation(Reservation(id, email), faults.onCreate);
    if err.Some? {
      return Raised(err.value);
    }
    resp := Ok(ReservedMessage);
  }

  /**
   * How the request specs expect the action to answer when it delegates to
   * the service: each typed error to its own status and message, any other
   * error to 500 with "Reservation failed: " and the error's message.
   */
  function RenderServiceResult(r: RB.Result): (resp: Rendered)
    ensures r.Success? <==> resp == Ok(ReservedMessage)
    ensures r.Failure? && r.error.InvalidEmail? ==> resp == UnprocessableEntity(r.error.message)
    ensures r.Failure? && r.error.NotFound? ==> resp == NotFound(r.error.message)
    ensures r.Failure? && r.error.Unavailable? ==> resp == BadRequest(r.error.message)
    ensures r.Failure? && r.error.PersistenceError? ==> resp == InternalServerError("Reservation failed: " + r.error.detail)
  {
    if r.Success? then Ok(ReservedMessage)
    else if r.error.InvalidEmail? then UnprocessableEntity(r.error.message)
    else if r.error.NotFound? then NotFound(r.error.message)
    else if r.error.Unavailable? then BadRequest(r.error.message)
    else InternalServerError("Reservation failed: " + r.error.detail)
  }

  /** The `reserve` action as the request specs describe it: a call of the service, rendered. */
  function ReserveDelegating(t: Tables, id: int, email: Option<string>, faults: Faults): (a: Action) {
    var s := RB.Reserve(t, id, email, faults);
    Action(RenderServiceResult(s.result), s.tables)
  }

  /**
   * Delegating restores the service's guarantees at the boundary: any
   * answer but 200 leaves the store unchanged, a blank email is reported
   * first as 422 "Email is missing", and a write failure becomes a 500.
   */
  lemma DelegatingIsAtomic(t: Tables, id: int, email: Option<string>, faults: Faults)
    ensures var a := ReserveDelegating(t, id, email, faults);
      && (a.response != Ok(ReservedMessage) ==> a.tables == t)
      && (Blank(email) ==> a.response == UnprocessableEntity(RB.EmailMissing))
      && (!Blank(email) && id !in t.books ==> a.response == NotFound(BookNotFound))
      && (a.response.InternalServerError? ==> a.response.error[..20] == "Reservation failed: ")
  {
    var s := RB.Reserve(t, id, email, faults);
    if s.result.Failure? {
      RB.FailureLeavesStoreUnchanged(t, id, email, faults);
    }
  }

  /** A failing insert through the service leaves the book available, where the action as written leaves it reserved. */
  lemma DelegatingCreateFailure(t: Tables, id: int, email: string, d: string)
    requires id in t.books && IsAvailable(t.books[id]) && !Blank(Some(email))
    ensures var a := ReserveDelegating(t, id, Some(email), Faults(None, Some(d)));
      && a.response == InternalServerError("Reservation failed: " + d)
      && a.tables == t
    ensures ReserveAction(t, id, Some(email), Faults(None, Some(d))).tables != t
  {
    RB.CreateFailureRollsBack(t, id, email, d);
    assert ReserveAction(t, id, Some(email), Faults(None, Some(d))).tables.books[id].status != t.books[id].status;
  }

  // ---------------------------------------------------------------- index

  const DefaultPage: nat := 1
  const DefaultPerPage: nat := 10
  /** `30.minutes`, in seconds. */
  const ExpiresIn: nat := 1800
  const KeyPrefix := "books_index_"

  /** `params[:x] || default` */
  function ParamOr(p: Option<nat>, default: nat): (v: nat)
    ensures p.None? ==> v == default
    ensures p.Some? ==> v == p.value
  {
    if p.Some? then p.value else default
  }

  /** `"books_index_#{page}_#{per_page}"` */
  function CacheKey(page: nat, perPage: nat): (k: string)
    ensures |k| > |KeyPrefix| && k[..|KeyPrefix|] == KeyPrefix
  {
    KeyPrefix + Show(page) + "_" + Show(perPage)
  }

  /** The index of the first underscore in `s`, or `|s|` when there is none. */
  function FirstUnderscore(s: string): (i: nat)
    ensures i <= |s|
    ensures i < |s| ==> s[i] == '_'
    ensures forall j :: 0 <= j < i ==> s[j] != '_'
  {
    if s == [] || s[0] == '_' then 0 else 1 + FirstUnderscore(s[1..])
  }

  /** Reads the page and page size back out of a cache key. */
  function ParseKey(k: string): (r: Option<(nat, nat)>) {
    if |k| < |KeyPrefix| || k[..|KeyPrefix|] != KeyPrefix then None
    else
      var rest := k[|KeyPrefix|..];
      var i := FirstUnderscore(rest);
      if i == |rest| then None
      else
        var a, b := rest[..i], rest[i + 1..];
        if AllDigits(a) && AllDigits(b) && a != [] && b != [] then Some((Parse(a), Parse(b))) else None
  }

  lemma SplitAtUnderscore(a: string, b: string)
    requires AllDigits(a)
    ensures FirstUnderscore(a + "_" + b) == |a|
    ensures (a + "_" + b)[..|a|] == a && (a + "_" + b)[|a| + 1..] == b
  {
    var s := a + "_" + b;
    assert s[|a|] == '_';
    assert forall j :: 0 <= j < |a| ==> s[j] == a[j];
  }

  /** The key names its page and page size: reading it back gives them. */
  lemma ParseCacheKey(page: nat, perPage: nat)
    ensures ParseKey(CacheKey(page, perPage)) == Some((page, perPage))
  {
    var k := CacheKey(page, perPage);
    var rest := k[|KeyPrefix|..];
    assert rest == Show(page) + "_" + Show(perPage);
    SplitAtUnderscore(Show(page), Show(perPage));
    ParseShow(page);
    ParseShow(perPage);
  }

  /** Different page or page size, different cache entry. */
  lemma CacheKeyInjective(p1: nat, q1: nat, p2: nat, q2: nat)
    ensures CacheKey(p1, q1) == CacheKey(p2, q2) ==> p1 == p2 && q1 == q2
  {
    ParseCacheKey(p1, q1);
    ParseCacheKey(p2, q2);
  }

  /** The key used by a request without paging parameters. */
  lemma DefaultCacheKey()
    ensures CacheKey(ParamOr(None, DefaultPage), ParamOr(None, DefaultPerPage)) == "books_index_1_10"
  {
    assert Show(1) == "1";
    assert Show(10) == Show(1) + [DigitChar(0)];
  }

  /**
   * `index` at time `now`. A live entry under the request's key is sent as
   * stored; otherwise the page of the current listing is computed, cached
   * for 30 minutes and sent. Nothing is written to the store.
   */
  method Index(db: Database, cache: Cache<seq<Row>>, pageParam: Option<nat>, perPageParam: Option<nat>, now: int)
    returns (payload: seq<Row>)
    requires pageParam.Some? ==> pageParam.value >= 1
    requires perPageParam.Some? ==> perPageParam.value >= 1
    modifies cache
    ensures var page, perPage := ParamOr(pageParam, DefaultPage), ParamOr(perPageParam, DefaultPerPage);
      var key := CacheKey(page, perPage);
      && (old(cache.Live(key, now)) ==> payload == old(cache.entries[key].value) && cache.entries == old(cache.entries))
      && (!old(cache.Live(key, now)) ==>
            payload == Page(Listing(db.books), page, perPage)
            && cache.entries == old(cache.entries)[key := Entry(payload, now + ExpiresIn)])
  {
    var page := ParamOr(pageParam, DefaultPage);
    var perPage := ParamOr(perPageParam, DefaultPerPage);
    var key := CacheKey(page, perPage);
    var books := db.books;
    payload := cache.Fetch(key, now, ExpiresIn, () => Page(Listing(books), page, perPage));
  }

  /**
   * Two identical requests within the expiry window of a first, uncached
   * one, with the books table replaced by `t2` in between (any writes at
   * all): the second request is served from the entry the first one wrote,
   * so both get the page of the books as they were at the first request,
   * and the second leaves the cache as the first left it.
   */
  method IndexTwice(db: Database, cache: Cache<seq<Row>>, pageParam: Option<nat>, perPageParam: Option<nat>,
                    now: int, later: int, t2: Tables)
    returns (first: seq<Row>, second: seq<Row>)
    requires pageParam.Some? ==> pageParam.value >= 1
    requires perPageParam.Some? ==> perPageParam.value >= 1
    requires now <= later < now + ExpiresIn
    requires !cache.Live(CacheKey(ParamOr(pageParam, DefaultPage), ParamOr(perPageParam, DefaultPerPage)), now)
    requires Consistent(t2)
    modifies db, cache
    ensures db.State() == t2
    ensures first == second
    ensures first == Page(Listing(old(db.books)), ParamOr(pageParam, DefaultPage), ParamOr(perPageParam, DefaultPerPage))
    ensures var key := CacheKey(ParamOr(pageParam, DefaultPage), ParamOr(perPageParam, DefaultPerPage));
      cache.entries == old(cache.entries)[key := Entry(first, now + ExpiresIn)]
  {
    first := Index(db, cache, pageParam, perPageParam, now);
    db.Restore(t2);
    second := Index(db, cache, pageParam, perPageParam, later);
  }
}
