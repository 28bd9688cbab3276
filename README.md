# Book reservation API: a verified model

This project models the logic of a small book-reservation API written in Ruby on Rails. The API does two things:

- **Reserve a book.** The `Books::ReserveBook` service checks that the email is present, that the book exists and that it is available, in that order. Each failure has its own error kind and message. On success it sets the book's status to `reserved` and inserts a reservation row, both inside one transaction. An error raised by either write rolls both back and reaches the caller unchanged.
- **List books.** The `index` action returns one page of the books ordered by title, holding only `{id, title, status}`. It caches that page for 30 minutes under the key `books_index_<page>_<per_page>`.

`BooksController#reserve` does **not** use the service. It has its own reservation logic: existence first, then availability, then the email ("Email is required"), and no transaction.

Files and modules:

- `support.dfy`
  - `Optional`: Ruby's `nil` as `Option`.
  - `Presence`: ActiveSupport's `blank?` on nil and strings. White space is the Unicode White_Space set, as `[[:space:]]` matches on UTF-8 text.
  - `Decimal`: `Integer#to_s` and its inverse.
- `book.dfy`, `BookModel`: the status enum `{available: 0, reserved: 1, checked_out: 2}`, its integer encoding and names, the `Book` record and `available?`.
- `reservation.dfy`, `ReservationModel`: the `Reservation` record and its validity (`belongs_to :book`, `validates :user_email, presence: true`). It also holds `book.reservations` (`has_many`), because Dafny modules cannot import each other in a cycle.
- `store.dfy`, `Store`:
  - `Tables`: the books table as a map from id to record, and the reservations table as a sequence.
  - `Faults`: an injectable failure for `update!` and for `create!`.
  - `WritePair`: the two writes run one after the other, stopping at the first that raises.
  - `Database`: the mutable store, with `find_by`, `update!`, `create!` and a transaction rollback.
- `reserve_book.dfy`, `ReserveBook`:
  - `Reserve` states the full effect of `call` on the tables and what it returns.
  - The class `ReserveBook` runs `call` step by step: the checks, then a transaction that saves the tables and restores them if a write raises. It is proved equal to `Reserve`.
- `listing.dfy`, `IndexQuery`: the query `select(:id, :title, :status).order(title: :asc).page(p).per(n)`.
  - `Listing` gives the ordered projection of the books table.
  - `Page` gives the slice that starts `(p - 1) * n` rows in.
- `cache.dfy`, `CacheStore`: `Rails.cache.fetch(key, expires_in:)` over a map from key to value and expiry time, read against an integer clock.
- `books_controller.dfy`, `BooksController`: the `reserve` action as written (`ReserveAction` and the method `Reserve`), and the `index` action (defaults, cache key, `Index`). It also holds the delegating variant described under Findings.

The effects on the outside world are parameters:

- the current time passed to `index`;
- the `Faults` value that makes a write raise;
- the HTTP response, modelled as a `Rendered` value.

## Model

| member | source | states |
|---|---|---|
| Presence.Blank | app/services/books/reserve_book.rb:31 | `blank?`: nil, or a string of white space only; its meaning is fixed by `BlankIffStripsToEmpty` and `BlankExamples` |
| Presence.BlankIffStripsToEmpty | app/services/books/reserve_book.rb:31 | a string is blank exactly when it is empty after its leading white space is dropped |
| Presence.BlankExamples | spec/models/reservation_spec.rb:10-14 | nil, the empty string and white space only are blank; an address is not |
| Decimal.Show | app/controllers/books_controller.rb:23 | `to_s` of a natural writes at least one digit, only digits, and no leading zero; `ParseShow` proves it reads back |
| Decimal.ParseShow | app/controllers/books_controller.rb:23 | reading the decimal numeral that interpolation writes for n gives back n |
| Decimal.ShowInjective | app/controllers/books_controller.rb:23 | two different numbers are never written as the same numeral |
| BookModel.Encode | app/models/book.rb:2 | every status is stored as an integer from 0 to 2 |
| BookModel.Decode | db/migrate/20250415222147_create_books.rb:6 | a stored integer names a status exactly when it is 0, 1 or 2, and that status encodes back to it |
| BookModel.DecodeEncode | app/models/book.rb:2 | decoding a status's encoding gives back the status |
| BookModel.EncodeInjective | app/models/book.rb:2 | different statuses are stored as different integers |
| BookModel.Name | app/models/book.rb:2 | the enum key of each status, `available`, `reserved`, `checked_out`; `NameInjective` proves no two share one |
| BookModel.NameInjective | spec/models/book_spec.rb:22-25 | different statuses have different names, so `book.status` determines the status |
| BookModel.Statuses | spec/models/book_spec.rb:18-20 | there are exactly three statuses, listed by stored integer, each appearing at its own integer |
| BookModel.IsAvailable | app/models/book.rb:2 | `available?`, whose meaning as "stored integer 0, and never for a missing status" is `AvailableIffStoredZero` |
| BookModel.AvailableIffStoredZero | app/models/book.rb:2 | `available?` holds exactly when the stored integer is 0; a book with no status is not available |
| ReservationModel.IsValid | app/models/reservation.rb:2-3 | `valid?`: the email is present and the book id names a book; `ValidHasBook` and `BlankEmailInvalid` state both halves |
| ReservationModel.BookOf | app/models/reservation.rb:2 | `reservation.book` exists exactly when its book id is a key of the books table, and is that book |
| ReservationModel.ValidHasBook | spec/models/reservation_spec.rb:18-22 | a valid reservation reaches the book with its book id |
| ReservationModel.BlankEmailInvalid | app/models/reservation.rb:3 | a nil or blank email makes a reservation invalid whatever book it names |
| ReservationModel.ReservationsOf | app/models/book.rb:4 | a book's reservations are drawn from the table and all carry its id |
| ReservationModel.ReservationsOfMembers | app/models/book.rb:4 | a reservation is among a book's reservations exactly when it is in the table and has that book's id |
| ReservationModel.ReservationsOfAppend | app/models/book.rb:4 | a new reservation joins the list of its own book and of no other |
| ReservationModel.SeveralPerBook | spec/models/book_spec.rb:29-36 | of three reservations, two of one book and one of another, the book's list holds exactly its two and not the third |
| Store.Find | app/services/books/reserve_book.rb:34-36 | `find_by` returns a book exactly when the id is a key of the table, and that book |
| Store.SetStatus | app/services/books/reserve_book.rb:45 | a status update changes only that book's status and no other row |
| Store.AppendReservation | app/services/books/reserve_book.rb:46 | an insert keeps the books and the existing reservations, and adds the new one at the end |
| Store.WritePair | app/services/books/reserve_book.rb:45-46 | the status update and then the insert, stopping at the first that raises and keeping what was written; `WritePairErrors` and `WritePairConsistent` specify it |
| Store.WritePairErrors | app/services/books/reserve_book.rb:45-46 | with a present email the insert's validations pass, so the pair fails only with an injected error, the update's before the insert's; otherwise both writes happen |
| Store.WritePairConsistent | db/migrate/20250415223119_create_reservations.rb:4-5 | however the two writes end, every reservation still names an existing book and has a present email |
| Store.Database.FindBook | app/controllers/books_controller.rb:3 | `find_by` on the live store is `Find` on its current tables |
| Store.Database.constructor | db/migrate/20250415223119_create_reservations.rb:3-8 | a store starts from consistent tables |
| Store.Database.UpdateStatus | app/services/books/reserve_book.rb:45 | `update!` raises the injected error and changes nothing, or sets the status and keeps consistency |
| Store.Database.CreateReservation | app/services/books/reserve_book.rb:46 | `create!` raises the injected error or a validation error for an invalid record and changes nothing, or appends the record |
| Store.Database.Restore | app/services/books/reserve_book.rb:44-47 | a rollback puts every table back as saved |
| ReserveBook.ValidateEmail | app/services/books/reserve_book.rb:30-32 | it fails exactly for a blank email, with `InvalidEmail` "Email is missing" |
| ReserveBook.ValidateBook | app/services/books/reserve_book.rb:38-41 | it passes exactly for an existing available book; a missing book gives `NotFound` "Book not found", an unavailable one `Unavailable` "Book is not available" |
| ReserveBook.BuildSuccessResponse | app/services/books/reserve_book.rb:50-57 | the success hash `{success: true, book_id, status: :reserved, user_email}`, stated as the result of a successful call by `SuccessEffects` |
| ReserveBook.Reserve | app/services/books/reserve_book.rb:16-24 | the result and the tables after `call`; the lemmas below (`SuccessIff`, `SuccessEffects`, `FailureLeavesStoreUnchanged`, `NothingElseChanges`) specify it and `ReserveBook.Call` is proved equal to it |
| ReserveBook.BlankEmailFailsFirst | app/services/books/reserve_book.rb:16-17 | a blank email fails with `InvalidEmail` whatever the id and the store, and nothing changes |
| ReserveBook.MissingBookNotFound | app/services/books/reserve_book.rb:19-20 | with a present email, an id not in the table fails with `NotFound` and nothing changes |
| ReserveBook.UnavailableBook | app/services/books/reserve_book.rb:40 | with a present email, a reserved, checked-out or status-less book fails with `Unavailable` and nothing changes |
| ReserveBook.SuccessIff | app/services/books/reserve_book.rb:16-24 | `call` succeeds exactly when the email is present, the book exists and is available, and neither write fails |
| ReserveBook.FailureLeavesStoreUnchanged | spec/services/books/reserve_book_spec.rb:40-50 | every failure, typed or raised by a write, leaves both tables as they were |
| ReserveBook.SuccessEffects | app/services/books/reserve_book.rb:44-57 | on success the book was available and is now reserved, one reservation `{book_id, email}` is appended, and the result is `{success: true, book_id, status: :reserved, user_email}` |
| ReserveBook.PersistenceErrorPassedThrough | app/services/books/reserve_book.rb:44-47 | a persistence failure carries exactly the error the failing write raised, and the tables are unchanged |
| ReserveBook.CreateFailureRollsBack | spec/services/books/reserve_book_spec.rb:81-95 | when the insert raises after the update, the book stays available, no row is added and the insert's error surfaces |
| ReserveBook.NothingElseChanges | app/services/books/reserve_book.rb:43-48 | on every path the set of books is the same, every other book is untouched, existing reservations stay in place, and at most one is added |
| ReserveBook.SuccessExtendsBookReservations | app/services/books/reserve_book.rb:46 | on success the book's reservations gain the new one and every other book's reservations are unchanged |
| ReserveBook.ReservePreservesConsistency | app/services/books/reserve_book.rb:43-48 | a call keeps every reservation tied to an existing book with a present email |
| ReserveBook.SecondReservationUnavailable | app/services/books/reserve_book.rb:40 | after a successful reservation, a second attempt on the same book fails with `Unavailable` |
| ReserveBook.ReserveBook.constructor | app/services/books/reserve_book.rb:11-14 | the service keeps the book id and email it is built with |
| ReserveBook.ReserveBook.Call | app/services/books/reserve_book.rb:16-24 | running the checks and the transaction on the store returns exactly `Reserve`'s result and leaves exactly its tables, keeping consistency |
| ReserveBook.ReserveBook.ReserveInTransaction | app/services/books/reserve_book.rb:43-48 | the transaction either performs both writes or, when one raises, returns its error with the store back as it was |
| IndexQuery.Project | app/controllers/books_controller.rb:26 | a row carries just the book's id, title and status |
| IndexQuery.TitleLessIrreflexive | app/controllers/books_controller.rb:26 | no title sorts before itself |
| IndexQuery.TitleLessTransitive | app/controllers/books_controller.rb:26 | the title order is transitive |
| IndexQuery.TitleLessTotal | app/controllers/books_controller.rb:26 | of two different titles one sorts first |
| IndexQuery.TitleLessAsymmetric | app/controllers/books_controller.rb:26 | two titles never sort before each other |
| IndexQuery.RowBeforeTransitive | app/controllers/books_controller.rb:26 | the row order is transitive |
| IndexQuery.RowBeforeTotal | app/controllers/books_controller.rb:26 | of two rows with different ids one comes first |
| IndexQuery.SortedTitlesAscending | spec/requests/books_spec.rb:93-97 | along a sorted listing titles never decrease |
| IndexQuery.Insert | app/controllers/books_controller.rb:26 | inserting a row adds exactly that row |
| IndexQuery.InsertSorted | app/controllers/books_controller.rb:26 | inserting a row with a new id into a sorted listing keeps it sorted |
| IndexQuery.Listing | app/controllers/books_controller.rb:26 | `select(:id, :title, :status).order(title: :asc)` on the whole table; `ListingFacts` specifies it |
| IndexQuery.ListingFacts | app/controllers/books_controller.rb:26 | the listing is sorted by title, has one row per book, and its rows are exactly the books' projections |
| IndexQuery.Page | app/controllers/books_controller.rb:26 | a page is the run of rows starting `(page-1)*per_page` in, of length `min(per_page, max(0, n - (page-1)*per_page))` |
| IndexQuery.PageOfSorted | app/controllers/books_controller.rb:26 | a page of a sorted listing is sorted and holds only rows of the listing |
| IndexQuery.IndexPageFacts | app/controllers/books_controller.rb:26 | a page of the books is sorted by title, has the slice length, and holds only projections of existing books |
| IndexQuery.FifteenBooks | spec/requests/books_spec.rb:70-86 | with 15 books, page 1 of 10 has 10 rows, page 2 of 5 has 5, page 2 of 10 has 5 and page 3 of 10 is empty |
| IndexQuery.EmptyTableEmptyPage | app/controllers/books_controller.rb:26 | an empty table gives an empty page |
| CacheStore.Cache.constructor | app/controllers/books_controller.rb:25 | a new cache holds no entries |
| CacheStore.Cache.Read | app/controllers/books_controller.rb:25 | a read hits exactly when the key holds an entry that has not expired, and gives its value |
| CacheStore.Cache.Fetch | app/controllers/books_controller.rb:25-27 | a hit returns the stored value and writes nothing; a miss stores the computed value under the key for the given time and returns it; no other key changes |
| BooksController.HttpStatus | app/controllers/books_controller.rb:4-17 | success is 200 and only success; every other answer is in the 400 to 500 range |
| BooksController.ReserveAction | app/controllers/books_controller.rb:2-18 | the answer and the tables after the `reserve` action as written; the `ReserveChecks...`, `ReserveSuccessMatchesService`, `ReserveNotAtomic` and `ReserveActionConsistent` lemmas specify it and `BooksController.Reserve` is proved equal to it |
| BooksController.ReserveChecksExistenceFirst | app/controllers/books_controller.rb:3-4 | a missing book gives 404 "Book not found" whatever the email, and nothing changes |
| BooksController.ReserveChecksAvailabilitySecond | app/controllers/books_controller.rb:6-8 | an unavailable book gives 400 "Book is not available" whatever the email, and nothing changes |
| BooksController.ReserveChecksEmailLast | app/controllers/books_controller.rb:10-11 | a blank email for an existing available book gives 422 "Email is required", and nothing changes |
| BooksController.ReserveSuccessMatchesService | app/controllers/books_controller.rb:13-17 | when everything passes the action answers 200 "Book reserved successfully" and leaves the store exactly as a successful service call does |
| BooksController.ReserveNotAtomic | app/controllers/books_controller.rb:13-15 | when the insert raises after the update, the error escapes and the book stays reserved with no reservation added |
| BooksController.ReserveOrderDiffersFromService | app/controllers/books_controller.rb:3-11 | a missing book with a blank email is 404 for the action but `InvalidEmail` for the service, and the two email messages differ |
| BooksController.ReserveActionConsistent | app/controllers/books_controller.rb:13-15 | even a half-done action keeps every reservation tied to an existing book with a present email |
| BooksController.Reserve | app/controllers/books_controller.rb:2-18 | running the action on the store returns exactly `ReserveAction`'s answer and leaves exactly its tables |
| BooksController.RenderServiceResult | spec/requests/books_spec.rb:9-66 | service success is 200; `InvalidEmail`, `NotFound` and `Unavailable` become 422, 404 and 400 with their messages; any other error becomes 500 "Reservation failed: " and its message |
| BooksController.ReserveDelegating | spec/requests/books_spec.rb:16-27 | the action as the request specs expect it: the service's call, rendered by `RenderServiceResult`; `DelegatingIsAtomic` and `DelegatingCreateFailure` specify it |
| BooksController.DelegatingIsAtomic | spec/requests/books_spec.rb:16-27 | reserving through the service changes nothing unless it answers 200, reports a blank email first as "Email is missing", and a missing book next |
| BooksController.DelegatingCreateFailure | spec/requests/books_spec.rb:56-66 | through the service a failing insert is a 500 with the store untouched, where the action as written changes the store |
| BooksController.ParamOr | app/controllers/books_controller.rb:21-22 | an absent parameter takes its default and a given one is used as is |
| BooksController.CacheKey | app/controllers/books_controller.rb:23 | every key starts with `books_index_` |
| BooksController.ParseCacheKey | app/controllers/books_controller.rb:23 | the page and page size can be read back from their key |
| BooksController.CacheKeyInjective | app/controllers/books_controller.rb:23 | different page or page size never share a cache entry |
| BooksController.DefaultCacheKey | spec/requests/books_spec.rb:88-91 | a request without paging parameters uses the key `books_index_1_10` |
| BooksController.Index | app/controllers/books_controller.rb:20-30 | with the defaults applied, a live entry under the key is returned as stored; otherwise the page of the title-ordered listing is returned and cached for 1800 seconds under the key; nothing else in the cache changes |
| BooksController.IndexTwice | app/controllers/books_controller.rb:25-27 | a second identical request within 30 minutes of an uncached first one, with the books replaced in between, gets the same payload, namely the page of the books at the first request, and leaves the cache exactly as the first request wrote it |

## Left out

- HTTP and JSON. Parameters arrive already parsed, so `page` and `per_page` are naturals of at least 1. How Kaminari treats zero, negative or non-numeric pages is not modelled. Neither is the raw parameter text, which the real key interpolates as is (`?page=02` gives `books_index_02_10`).
- Book ids from the request are integers. The string-to-integer conversion of `find_by(id: "9999")` is not modelled.
- The title order is the lexicographic order of code points, with equal titles in id order. A database collation, or an order for equal titles that varies between runs, is not modelled.
- Titles are strings. The schema allows a NULL title, but where NULLs sort depends on the database, so NULL titles are not modelled.
- `created_at`, `updated_at` and record ids other than book ids are not modelled.
- The error a failed `create!` validation raises is a fixed "Validation failed" string, not ActiveRecord's full message. It cannot occur on the two reservation paths anyway, because both check the email before writing.
- `update!` fails only by an injected `Faults` value, since `Book` has no validations.
- Creating and destroying books is not part of the core. Cascade deletion of reservations is not modelled: `has_many :reservations` has no `dependent:` option, so the code does not do it (spec/models/book_spec.rb:38-43 expects it).
- The title is not required and the status has no default: the code has no validation and the column no default (spec/models/book_spec.rb:10-14 expects the validation). A book's status may therefore be absent, and such a book is never available.
- `index` renders its rows through `as_json`, which writes the status by name. The rows here carry the status value; `BookModel.Name` gives the name.
- The 30-minute expiry uses an integer clock in seconds passed by the caller. Races between concurrent misses are not modelled. Neither is the cache backend's eviction.
- Store.Consistent: asks every stored reservation for a present email, where the schema only forbids a NULL one. A blank row written while skipping validations would make the store invalid, and the two reservation operations require a valid store although they read no row but their own book.
- Concurrency between simultaneous reservations is not modelled. The code relies on the database's transactions and locks.
- The index migration that adds indexes on `status` and `title` is not modelled: it changes performance only.
- CacheStore.Cache.Fetch: says a hit returns the stored value and writes nothing. It does not say the query is skipped, because running a pure computation has no observable effect in the model.

## Findings

| source | as written | input that shows it | evidently intended | confidence | as-written member | corrected member |
|---|---|---|---|---|---|---|
| app/controllers/books_controller.rb:2-18 | `reserve` does not call the service. It writes status and reservation without a transaction, checks the email last and says "Email is required". | An existing available book and a present email, where the reservation insert raises: the action leaves the book `reserved` with no reservation. Also, a missing id with a blank email gets 404 instead of 422. | Delegate to `Books::ReserveBook` and render its errors, as spec/requests/books_spec.rb:16-27, 42 and 56-66 expect: atomic writes, "Email is missing" reported first, 500 "Reservation failed: ..." on other errors. | medium; not executed | BooksController.ReserveNotAtomic | BooksController.DelegatingCreateFailure |
