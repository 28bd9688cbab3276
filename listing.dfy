/**
 * The query behind the books index:
 * `Book.select(:id, :title, :status).order(title: :asc).page(page).per(per_page)`.
 * Rows carry only the three selected columns. The title order is the
 * lexicographic order of code points (what comparing UTF-8 bytes gives);
 * rows with equal titles are taken in id order. A page is the slice that
 * starts `(page - 1) * per_page` rows in and is at most `per_page` long.
 */
module IndexQuery {
  import opened Optional
  import opened BookModel

  /** One element of the index payload: `{id, title, status}`. */
  datatype Row = Row(id: int, title: string, status: Option<Status>)

  function Project(id: int, b: Book): (r: Row)
    ensures r.id == id && r.title == b.title && r.status == b.status
  {
    Row(id, b.title, b.status)
  }

  predicate TitleLess(a: string, b: string) {
    if a == [] then b != []
    else if b == [] then false
    else if a[0] != b[0] then a[0] < b[0]
    else TitleLess(a[1..], b[1..])
  }

  lemma {:induction false} TitleLessIrreflexive(a: string)
    ensures !TitleLess(a, a)
  {
    if a != [] {
      TitleLessIrreflexive(a[1..]);
    }
  }

  lemma {:induction false} TitleLessTransitive(a: string, b: string, c: string)
    requires TitleLess(a, b) && TitleLess(b, c)
    ensures TitleLess(a, c)
  {
    if a != [] && b != [] && c != [] && a[0] == b[0] && b[0] == c[0] {
      TitleLessTransitive(a[1..], b[1..], c[1..]);
    }
  }

  lemma {:induction false} TitleLessTotal(a: string, b: string)
    ensures a == b || TitleLess(a, b) || TitleLess(b, a)
  {
    if a != [] && b != [] && a[0] == b[0] {
      TitleLessTotal(a[1..], b[1..]);
      if a[1..] == b[1..] {
        assert a == [a[0]] + a[1..] && b == [b[0]] + b[1..];
      }
    }
  }

  lemma {:induction false} TitleLessAsymmetric(a: string, b: string)
    requires TitleLess(a, b)
    ensures !TitleLess(b, a)
  {
    if a != [] && b != [] && a[0] == b[0] {
      TitleLessAsymmetric(a[1..], b[1..]);
    }
  }

  /** The order of the listing: by title, then by id. */
  predicate RowBefore(x: Row, y: Row) {
    TitleLess(x.title, y.title) || (x.title == y.title && x.id < y.id)
  }

  lemma RowBeforeTransitive(x: Row, y: Row, z: Row)
    requires RowBefore(x, y) && RowBefore(y, z)
    ensures RowBefore(x, z)
  {
    if TitleLess(x.title, y.title) && TitleLess(y.title, z.title) {
      TitleLessTransitive(x.title, y.title, z.title);
    }
  }

  lemma RowBeforeTotal(x: Row, y: Row)
    requires x.id != y.id
    ensures RowBefore(x, y) || RowBefore(y, x)
  {
    TitleLessTotal(x.title, y.title);
  }

  predicate Sorted(rows: seq<Row>) {
    forall i, j :: 0 <= i < j < |rows| ==> RowBefore(rows[i], rows[j])
  }

  /** Titles never decrease along a sorted listing. */
  lemma SortedTitlesAscending(rows: seq<Row>, i: int, j: int)
    requires Sorted(rows) && 0 <= i < j < |rows|
    ensures rows[i].title == rows[j].title || TitleLess(rows[i].title, rows[j].title)
    ensures !TitleLess(rows[j].title, rows[i].title)
  {
    assert RowBefore(rows[i], rows[j]);
    if rows[i].title != rows[j].title {
      TitleLessAsymmetric(rows[i].title, rows[j].title);
    } else {
      TitleLessIrreflexive(rows[i].title);
    }
  }

  /** Insertion of one row into a sorted listing. */
  function Insert(x: Row, rows: seq<Row>): (r: seq<Row>)
    ensures |r| == |rows| + 1
    ensures forall y :: y in r <==> y == x || y in rows
  {
    if rows == [] then [x]
    else if RowBefore(x, rows[0]) then [x] + rows
    else [rows[0]] + Insert(x, rows[1..])
  }

  lemma {:induction false} InsertSorted(x: Row, rows: seq<Row>)
    requires Sorted(rows)
    requires forall y :: y in rows ==> y.id != x.id
    ensures Sorted(Insert(x, rows))
  {
    if rows != [] {
      if RowBefore(x, rows[0]) {
        var r := [x] + rows;
        forall i, j | 0 <= i < j < |r| ensures RowBefore(r[i], r[j]) {
          if i == 0 && j > 1 {
            RowBeforeTransitive(x, rows[0], rows[j - 1]);
          }
        }
      } else {
        RowBeforeTotal(x, rows[0]);
        InsertSorted(x, rows[1..]);
        var tail := Insert(x, rows[1..]);
        var r := [rows[0]] + tail;
        forall i, j | 0 <= i < j < |r| ensures RowBefore(r[i], r[j]) {
          if i == 0 {
            assert r[j] in tail;
            if r[j] != x {
              assert r[j] in rows[1..];
              var k :| 0 <= k < |rows[1..]| && rows[1..][k] == r[j];
              assert rows[k + 1] == r[j];
            }
          } else {
            assert r[i] == tail[i - 1] && r[j] == tail[j - 1];
          }
        }
      }
    }
  }

  lemma HasElement(s: set<int>)
    requires s != {}
    ensures exists m :: m in s
  {
    if forall m :: m !in s {
      assert false;
    }
  }

  /** The least element of a finite set of ids. */
  ghost function MinOf(s: set<int>): (m: int)
    requires s != {}
    ensures m in s && forall j :: j in s ==> m <= j
    decreases |s|
  {
    HasElement(s);
    var x :| x in s;
    if s == {x} then x
    else
      var m := MinOf(s - {x});
      assert forall j :: j in s ==> j == x || j in s - {x};
      if x < m then x else m
  }

  /** Every book of the table, projected and in listing order. */
  function Listing(books: map<int, Book>): (r: seq<Row>)
    decreases |books.Keys|
  {
    if books == map[] then []
    else
      assert MinOf(books.Keys) in books;
      var id :| id in books && forall j :: j in books ==> id <= j;
      assert (books - {id}).Keys == books.Keys - {id};
      Insert(Project(id, books[id]), Listing(books - {id}))
  }

  /**
   * The listing is sorted by title (then id), holds one row per book and
   * nothing else, and each row is the book's projection.
   */
  lemma {:induction false} ListingFacts(books: map<int, Book>)
    ensures Sorted(Listing(books))
    ensures |Listing(books)| == |books.Keys|
    ensures forall x :: x in Listing(books) <==> x.id in books && x == Project(x.id, books[x.id])
    decreases |books.Keys|
  {
    if books != map[] {
      assert MinOf(books.Keys) in books;
      var id :| id in books && forall j :: j in books ==> id <= j;
      var rest := books - {id};
      assert rest.Keys == books.Keys - {id};
      ListingFacts(rest);
      InsertSorted(Project(id, books[id]), Listing(rest));
    }
  }

  function Min(a: int, b: int): (m: int) { if a <= b then a else b }
  function Max(a: int, b: int): (m: int) { if a >= b then a else b }

  /** The number of rows before page `page`. */
  function Offset(page: nat, perPage: nat): (n: nat)
    requires page >= 1
  {
    (page - 1) * perPage
  }

  /** `.page(page).per(per_page)` on the ordered rows. */
  function Page(rows: seq<Row>, page: nat, perPage: nat): (r: seq<Row>)
    requires page >= 1 && perPage >= 1
    ensures |r| == Min(perPage, Max(0, |rows| - Offset(page, perPage)))
    ensures forall i :: 0 <= i < |r| ==> r[i] == rows[Offset(page, perPage) + i]
  {
    var start := Offset(page, perPage);
    if start >= |rows| then [] else rows[start..Min(start + perPage, |rows|)]
  }

  /** A page of a sorted listing is sorted, and its rows are rows of the listing. */
  lemma PageOfSorted(rows: seq<Row>, page: nat, perPage: nat)
    requires page >= 1 && perPage >= 1 && Sorted(rows)
    ensures Sorted(Page(rows, page, perPage))
    ensures forall x :: x in Page(rows, page, perPage) ==> x in rows
  {
    var r := Page(rows, page, perPage);
    var start := Offset(page, perPage);
    forall i, j | 0 <= i < j < |r| ensures RowBefore(r[i], r[j]) {
      assert r[i] == rows[start + i] && r[j] == rows[start + j];
    }
    forall x | x in r ensures x in rows {
      var i :| 0 <= i < |r| && r[i] == x;
      assert rows[start + i] == x;
    }
  }

  /** The index of a table: the page of its listing, with the properties the payload promises. */
  lemma IndexPageFacts(books: map<int, Book>, page: nat, perPage: nat)
    requires page >= 1 && perPage >= 1
    ensures var r := Page(Listing(books), page, perPage);
      && Sorted(r)
      && |r| == Min(perPage, Max(0, |books.Keys| - Offset(page, perPage)))
      && (forall x :: x in r ==> x.id in books && x == Project(x.id, books[x.id]))
  {
    ListingFacts(books);
    PageOfSorted(Listing(books), page, perPage);
  }

  /** Fifteen books: page 1 of 10 holds 10 rows, page 2 of 5 holds 5, page 2 of 10 holds 5, page 3 of 10 none. */
  lemma FifteenBooks(books: map<int, Book>)
    requires |books.Keys| == 15
    ensures |Page(Listing(books), 1, 10)| == 10
    ensures |Page(Listing(books), 2, 5)| == 5
    ensures |Page(Listing(books), 2, 10)| == 5
    ensures Page(Listing(books), 3, 10) == []
  {
    ListingFacts(books);
  }

  /** An empty table gives an empty page, not an error. */
  lemma EmptyTableEmptyPage(page: nat, perPage: nat)
    requires page >= 1 && perPage >= 1
    ensures Page(Listing(map[]), page, perPage) == []
  {
  }
}
