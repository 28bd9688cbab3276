/**
 * The Reservation record and the two associations between books and
 * reservations. `belongs_to :book` (required by default) and the presence
 * validation on `user_email` make up `IsValid`; the `has_many :reservations`
 * of a book is `ReservationsOf`, kept here beside its inverse because the
 * book module cannot also depend on this one.
 */
module ReservationModel {
  import opened Optional
  import opened Presence
  import opened BookModel

  datatype Reservation = Reservation(bookId: int, userEmail: Option<string>)

  /** `reservation.valid?`: a present email and an existing book. */
  predicate IsValid(r: Reservation, books: map<int, Book>) {
    !Blank(r.userEmail) && r.bookId in books
  }

  /** `reservation.book`: the book whose id is the reservation's book id. */
  function BookOf(r: Reservation, books: map<int, Book>): (b: Option<Book>)
    ensures b.Some? <==> r.bookId in books
    ensures b.Some? ==> b.value == books[r.bookId]
  {
    if r.bookId in books then Some(books[r.bookId]) else None
  }

  /** A valid reservation always reaches its book. */
  lemma ValidHasBook(r: Reservation, books: map<int, Book>)
    requires IsValid(r, books)
    ensures BookOf(r, books) == Some(books[r.bookId])
  {
  }

  /** A missing or blank email makes a reservation invalid whatever book it names. */
  lemma BlankEmailInvalid(r: Reservation, books: map<int, Book>)
    requires Blank(r.userEmail)
    ensures !IsValid(r, books)
  {
  }

  /** `book.reservations`: the reservations whose book id is `id`, in table order. */
  function ReservationsOf(id: int, rs: seq<Reservation>): (r: seq<Reservation>)
    ensures |r| <= |rs|
    ensures forall i :: 0 <= i < |r| ==> r[i].bookId == id
  {
    if rs == [] then []
    else (if rs[0].bookId == id then [rs[0]] else []) + ReservationsOf(id, rs[1..])
  }

  lemma {:induction false} ReservationsOfMembers(id: int, rs: seq<Reservation>, x: Reservation)
    ensures x in ReservationsOf(id, rs) <==> x in rs && x.bookId == id
  {
    if rs != [] {
      ReservationsOfMembers(id, rs[1..], x);
      assert rs == [rs[0]] + rs[1..];
    }
  }

  /** Adding a reservation adds it to its own book's list and to no other. */
  lemma {:induction false} ReservationsOfAppend(id: int, rs: seq<Reservation>, x: Reservation)
    ensures ReservationsOf(id, rs + [x]) == ReservationsOf(id, rs) + (if x.bookId == id then [x] else [])
  {
    if rs == [] {
      assert rs + [x] == [x];
    } else {
      assert (rs + [x])[1..] == rs[1..] + [x];
      ReservationsOfAppend(id, rs[1..], x);
    }
  }

  /** One book may hold several reservations: both of its own are in its list, and another book's is not. */
  lemma SeveralPerBook(id: int, a: string, b: string)
    ensures var rs := [Reservation(id, Some(a)), Reservation(id, Some(b)), Reservation(id + 1, Some(a))];
      && |ReservationsOf(id, rs)| == 2
      && Reservation(id, Some(a)) in ReservationsOf(id, rs)
      && Reservation(id, Some(b)) in ReservationsOf(id, rs)
      && Reservation(id + 1, Some(a)) !in ReservationsOf(id, rs)
  {
    var rs := [Reservation(id, Some(a)), Reservation(id, Some(b)), Reservation(id + 1, Some(a))];
    assert rs[1..][1..][1..] == [];
    assert ReservationsOf(id, rs[1..][1..]) == [];
    assert ReservationsOf(id, rs[1..]) == [rs[1]];
  }
}
