/**
 * The persistence store the core writes to: the books table (id to record)
 * and the reservations table (rows in insertion order). `Tables` is its value;
 * `Database` is the mutable store that `update!`, `create!` and a transaction
 * rollback change in place. A write can be made to fail, as a constraint
 * violation or a lost connection would, by a `Faults` value.
 */
module Store {
  import opened Optional
  import opened BookModel
  import opened ReservationModel

  datatype Tables = Tables(books: map<int, Book>, reservations: seq<Reservation>)

  /**
   * What the schema and the model validations keep true of the stored rows:
   * every reservation names an existing book (NOT NULL plus a foreign key)
   * and has a present email (NOT NULL plus the presence validation).
   * The schema alone only forbids a NULL email: a blank one written while
   * skipping validations would break this predicate, although neither
   * reservation path reads any row but its own book.
   */
  predicate Consistent(t: Tables) {
    forall i :: 0 <= i < |t.reservations| ==> IsValid(t.reservations[i], t.books)
  }

  /** Injected failures: the error the status update or the reservation insert raises, if any. */
  datatype Faults = Faults(onUpdate: Option<string>, onCreate: Option<string>)

  const NoFaults := Faults(None, None)

  /** The error `create!` raises for a record that fails its validations. */
  const RecordInvalid := "Validation failed"

  /** `Book.find_by(id: id)`: the book with that id, or nil. */
  function Find(t: Tables, id: int): (r: Option<Book>)
    ensures r.Some? <==> id in t.books
    ensures r.Some? ==> r.value == t.books[id]
  {
    if id in t.books then Some(t.books[id]) else None
  }

  function SetStatus(t: Tables, id: int, s: Status): (r: Tables)
    requires id in t.books
    ensures r.books.Keys == t.books.Keys && r.reservations == t.reservations
    ensures r.books[id].status == Some(s)
    ensures r.books[id].title == t.books[id].title && r.books[id].description == t.books[id].description
    ensures forall j :: j in t.books && j != id ==> r.books[j] == t.books[j]
  {
    t.(books := t.books[id := t.books[id].(status := Some(s))])
  }

  function AppendReservation(t: Tables, x: Reservation): (r: Tables)
    ensures r.books == t.books
    ensures |r.reservations| == |t.reservations| + 1
    ensures r.reservations[..|t.reservations|] == t.reservations && r.reservations[|t.reservations|] == x
  {
    t.(reservations := t.reservations + [x])
  }

  /** The outcome of a sequence of writes: the first error raised, if any, and the tables as the writes left them. */
  datatype Written = Written(error: Option<string>, tables: Tables)

  /**
   * `book.update!(status: :reserved)` followed by
   * `Reservation.create!(book: book, user_email: email)`, without a transaction:
   * the first write that raises stops the sequence, and what was already
   * written stays written.
   */
  function WritePair(t: Tables, id: int, email: string, faults: Faults): (w: Written)
    requires id in t.books
  {
    if faults.onUpdate.Some? then Written(faults.onUpdate, t)
    else
      var t1 := SetStatus(t, id, Reserved);
      var x := Reservation(id, Some(email));
      if faults.onCreate.Some? then Written(faults.onCreate, t1)
      else if !IsValid(x, t1.books) then Written(Some(RecordInvalid), t1)
      else Written(None, AppendReservation(t1, x))
  }

  /** With a present email the insert's own validations pass, so only an injected fault can stop the pair. */
  lemma WritePairErrors(t: Tables, id: int, email: string, faults: Faults)
    requires id in t.books
    requires !Presence.Blank(Some(email))
    ensures WritePair(t, id, email, faults).error ==
      (if faults.onUpdate.Some? then faults.onUpdate else faults.onCreate)
    ensures WritePair(t, id, email, faults).error.None? ==>
      WritePair(t, id, email, faults).tables == AppendReservation(SetStatus(t, id, Reserved), Reservation(id, Some(email)))
  {
  }

  /** The two writes never break the stored rows' consistency, whatever stops them. */
  lemma WritePairConsistent(t: Tables, id: int, email: string, faults: Faults)
    requires id in t.books && Consistent(t)
    ensures Consistent(WritePair(t, id, email, faults).tables)
  {
    var w := WritePair(t, id, email, faults);
    forall i | 0 <= i < |w.tables.reservations|
      ensures IsValid(w.tables.reservations[i], w.tables.books)
    {
      if i < |t.reservations| {
        assert w.tables.reservations[i] == t.reservations[i];
      }
    }
  }

  class Database {
    var books: map<int, Book>
    var reservations: seq<Reservation>

    function State(): (t: Tables)
      reads this
    {
      Tables(books, reservations)
    }

    predicate Valid()
      reads this
    {
      Consistent(State())
    }

    constructor (t: Tables)
      requires Consistent(t)
      ensures Valid() && State() == t
    {
      books := t.books;
      reservations := t.reservations;
    }

    /** `find_by` against the current tables. */
    function FindBook(id: int): (r: Option<Book>)
      reads this
      ensures r == Find(State(), id)
    {
      if id in books then Some(books[id]) else None
    }

    /** `book.update!(status: s)`, which raises `fault` when one is injected. */
    method UpdateStatus(id: int, s: Status, fault: Option<string>) returns (err: Option<string>)
      requires Valid() && id in books
      modifies this
      ensures Valid()
      ensures err == fault
      ensures State() == if fault.Some? then old(State()) else SetStatus(old(State()), id, s)
    {
      err := fault;
      if fault.None? {
        books := books[id := books[id].(status := Some(s))];
      }
    }

    /** `Reservation.create!(...)`: raises `fault` when injected, or a validation error for an invalid record; otherwise appends it. */
    method CreateReservation(x: Reservation, fault: Option<string>) returns (err: Option<string>)
      requires Valid()
      modifies this
      ensures Valid()
      ensures err == if fault.Some? then fault else if !IsValid(x, old(books)) then Some(RecordInvalid) else None
      ensures State() == if err.Some? then old(State()) else AppendReservation(old(State()), x)
    {
      if fault.Some? {
        err := fault;
      } else if !IsValid(x, books) {
        err := Some(RecordInvalid);
      } else {
        err := None;
        reservations := reservations + [x];
      }
    }

    /** A transaction rollback: every table goes back to the state saved when the transaction began. */
    method Restore(saved: Tables)
      requires Consistent(saved)
      modifies this
      ensures Valid() && State() == saved
    {
      books := saved.books;
      reservations := saved.reservations;
    }
  }
}
