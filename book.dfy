/**
 * The Book record: a title, an optional description and a status held in an
 * integer column through an enum mapping `{available: 0, reserved: 1,
 * checked_out: 2}`. The column has no default and no NOT NULL constraint, so
 * a book's status may be absent (nil).
 */
module BookModel {
  import opened Optional

  datatype Status = Available | Reserved | CheckedOut

  /** The integer the enum mapping stores for each status. */
  function Encode(s: Status): (n: int)
    ensures 0 <= n <= 2
  {
    match s
    case Available => 0
    case Reserved => 1
    case CheckedOut => 2
  }

  /** Reading the column back: a value outside the mapping has no status. */
  function Decode(n: int): (r: Option<Status>)
    ensures r.Some? <==> 0 <= n <= 2
    ensures r.Some? ==> Encode(r.value) == n
  {
    if n == 0 then Some(Available)
    else if n == 1 then Some(Reserved)
    else if n == 2 then Some(CheckedOut)
    else None
  }

  lemma DecodeEncode(s: Status)
    ensures Decode(Encode(s)) == Some(s)
  {
  }

  lemma EncodeInjective(s: Status, t: Status)
    ensures Encode(s) == Encode(t) ==> s == t
  {
  }

  /** The name the enum exposes for a status (`book.status`, the keys of `Book.statuses`). */
  function Name(s: Status): (r: string) {
    match s
    case Available => "available"
    case Reserved => "reserved"
    case CheckedOut => "checked_out"
  }

  lemma NameInjective(s: Status, t: Status)
    ensures Name(s) == Name(t) ==> s == t
  {
    // the three names differ already in length: 9, 8 and 11 characters
    assert |Name(Available)| == 9 && |Name(Reserved)| == 8 && |Name(CheckedOut)| == 11;
  }

  /** `Book.statuses`: every status, in the order of its stored integer. */
  function Statuses(): (r: seq<Status>)
    ensures |r| == 3
    ensures forall i :: 0 <= i < |r| ==> Encode(r[i]) == i
    ensures forall s: Status :: r[Encode(s)] == s
  {
    [Available, Reserved, CheckedOut]
  }

  datatype Book = Book(title: string, description: Option<string>, status: Option<Status>)

  /** The enum's `available?` query. */
  predicate IsAvailable(b: Book) {
    b.status == Some(Available)
  }

  /** `available?` holds exactly when the stored integer is 0; a book with no status is not available. */
  lemma AvailableIffStoredZero(b: Book)
    ensures IsAvailable(b) <==> b.status.Some? && Encode(b.status.value) == 0
    ensures b.status.None? ==> !IsAvailable(b)
  {
  }
}
