# Shelf management, modelled in Dafny

A model of the shelf controller of a calibre-web fork: user-curated, ordered
collections of books ("shelves") with a public/private flag and an owner. The
model covers the three handlers and the two permission checks.

- **Adding a book to a shelf.** Four guards run in a fixed order: the shelf
  exists, the caller may edit it, the (shelf, book) pair is not stored yet, and
  the catalog holds the book. Then a membership row is appended with
  `order = max + 1`, the shelf's `last_modified` is stamped, and both are
  committed. A failed commit is rolled back.
- **Saving the create/edit form.** The title and the `is_public` checkbox become
  shelf fields. A new shelf is owned by the caller; an edited shelf is stamped.
- **Showing a shelf.** The page lists the catalog books that have a membership
  row for the shelf, ordered by `order` ascending.

Modules:

- `Wrappers` (`wrappers.dfy`): `Option`, which stands for SQL's NULL.
- `Shelves` (`shelves.dfy`): the shelf record, the caller, the edit and view
  permission predicates, and the mapping from form fields to shelf fields.
- `Memberships` (`memberships.dfy`): the book-in-shelf table as a sequence of
  rows. It holds the duplicate query, the per-shelf maximum order, the appended
  row, and the listing query (filter by shelf, join with the catalog, sort by
  order), with their lemmas.
- `ShelfRoutes` (`routes.dfy`): the store as a class, with fields `shelves`
  (a map from id to record), `memberships`, the id counter and the read-only
  `catalog`. Its methods `AddToShelf`, `SaveShelf` and `ShowShelf` return the
  response the handler sends, reduced to its kind.

The store invariant `Store.Valid` is kept by every method. It says four things:
no (shelf, book) pair is stored twice, each shelf's orders strictly increase in
the order its rows were added, shelf ids are positive and below the counter,
and every membership row belongs to a stored shelf.

Three behaviours of the code that a reader might expect otherwise, kept as written:

- The edit check never looks at the anonymous flag. Only ownership and the
  "edit public shelves" role decide it, so the guest account may edit a private
  shelf that it owns. `Shelves.GuestOwnerMayEditButNotView` states this.
- Editing a shelf through the create/edit form performs no permission check.
- `create_edit_shelf` treats any falsy `shelf_id` as "create". The model writes
  this as `editId == 0`, and `Store.Valid` keeps 0 from ever naming a shelf.

Inputs that the handlers read from the environment are parameters:

- the caller (`Caller`: id, anonymous flag, the edit-public-shelves role);
- whether the request is an `XMLHttpRequest` (`xhr`);
- the current time (`now`, opaque);
- whether the commit raises a database error (`commitFails`);
- for the form, whether it was submitted (`post`) and its fields (`form`).

## Model

| member | source | states |
|---|---|---|
| `Shelves.CanEdit` | cps/shelf.py:164-171 | edit is allowed iff the shelf is private and the caller owns it, or it is public and the caller's role may edit public shelves |
| `Shelves.CanView` | cps/shelf.py:174-180 | view is allowed iff the shelf is public, or the caller is logged in and owns it |
| `Shelves.EditImpliesView` | cps/shelf.py:164-180 | a logged-in caller that may edit a shelf may also view it |
| `Shelves.GuestOwnerMayEditButNotView` | cps/shelf.py:164-180 | an anonymous caller whose id owns a private shelf passes the edit check and fails the view check |
| `Shelves.ApplyForm` | cps/shelf.py:104-107 | the name becomes the submitted title, or "" if there is none; the shelf is public iff `is_public` was submitted as `on`; owner and timestamp are untouched |
| `Shelves.FormTitle` | cps/shelf.py:106 | defined as: the submitted `title` field, or the empty string when the form has none |
| `Shelves.FormIsPublic` | cps/shelf.py:105 | defined as: the form has an `is_public` field and its value is exactly `on` |
| `Shelves.ResubmitIsIdentity` | cps/shelf.py:104-107 | submitting a shelf's own name and checkbox state back leaves the shelf unchanged |
| `Shelves.NewShelf` | cps/shelf.py:105-111 | a created shelf is owned by the current user and has the form's title and visibility |
| `Shelves.CreateVisibility` | cps/shelf.py:105-107 | a form without the checkbox creates a private shelf; one with `on` creates a public shelf |
| `Memberships.InShelf` | cps/shelf.py:40-45 | defined as: some stored row names both the shelf and the book (the duplicate query) |
| `Memberships.RowsOf` | cps/shelf.py:52-53 | defined as: the stored rows whose shelf is the given one, in table order (the `BookShelf.shelf == shelf_id` filter, also at :149-150) |
| `Memberships.RowsOfMembers` | cps/shelf.py:52-53 | the rows selected for a shelf are exactly the stored rows that name it |
| `Memberships.SqlMaxOrder` | cps/shelf.py:52-54 | `MAX(order)` is NULL iff there are no rows; otherwise it bounds every row's order and is some row's order |
| `Memberships.MaxOrder` | cps/shelf.py:52-54 | `max(order) ... or 0` for one shelf: 0 when the shelf has no rows; otherwise an upper bound of the shelf's orders that is one of them |
| `Memberships.NextEntry` | cps/shelf.py:52-64 | the appended row names the shelf and the book; its order is exactly one more than the largest order on that shelf (so above all of them), and 1 on a shelf with no rows |
| `Memberships.AppendKeepsOrdersIncreasing` | cps/shelf.py:52-64 | appending the row a successful add computes keeps every shelf's orders strictly increasing along the table |
| `Memberships.AppendKeepsNoDuplicates` | cps/shelf.py:40-64 | appending a pair the duplicate check did not find keeps every pair unique, and the pair is then found |
| `Memberships.SuccessiveAddsNumberFromOne` | cps/shelf.py:52-64 | successive adds to a shelf with no rows give its rows the orders 1, 2, 3, ... in insertion order |
| `Memberships.InCatalog` | cps/shelf.py:147-148 | defined as: the rows whose book id the catalog holds, in their order (the inner join with the book table) |
| `Memberships.InCatalogMembers` | cps/shelf.py:147-148 | the join with the book table keeps exactly the rows whose book the catalog holds |
| `Memberships.InsertByOrder` | cps/shelf.py:151-152 | defined as: one row placed after every row of no larger order, the step of the sort below |
| `Memberships.SortByOrder` | cps/shelf.py:151-152 | defined as: insertion sort by `order` ascending, rows with equal orders kept in table order |
| `Memberships.SortByOrderCorrect` | cps/shelf.py:151-152 | ordering by `order` ascending yields a sorted permutation of its input |
| `Memberships.ShelfEntries` | cps/shelf.py:137-153 | defined as: the shelf's rows, joined with the catalog, sorted by `order` ascending |
| `Memberships.Listing` | cps/shelf.py:137-153 | defined as: the book ids of `ShelfEntries`, in listing order |
| `Memberships.ShelfEntriesCorrect` | cps/shelf.py:137-153 | the listing rows are sorted by order, are the shelf's catalog rows with their multiplicities, and contain exactly the stored rows of that shelf whose book is in the catalog |
| `Memberships.ListingContents` | cps/shelf.py:137-153 | a book is listed iff the catalog holds it and the shelf has a row for it |
| `Memberships.ListingOnceEach` | cps/shelf.py:137-153 | when no pair is stored twice, no book is listed twice |
| `Memberships.ListingInInsertionOrder` | cps/shelf.py:137-153 | when each shelf's orders increase along the table, the listing is the shelf's catalog rows in insertion order, with strictly increasing orders |
| `ShelfRoutes.Refuse` | cps/shelf.py:29-62 | defined as: a refused add answers `(body, status)` to an xhr caller and redirects to the start page otherwise |
| `ShelfRoutes.DecimalString` | cps/shelf.py:62 | defined as: the decimal digits of a number, most significant first, as `%s` prints an int |
| `ShelfRoutes.AlreadyInShelfBody` | cps/shelf.py:50 | defined as: "Book is already part of the shelf: " followed by the shelf's name |
| `ShelfRoutes.InvalidBookBody` | cps/shelf.py:62 | defined as: the decimal book id followed by " is an invalid Book Id. Could not be added to Shelf" |
| `ShelfRoutes.Store.Valid` | cps/shelf.py:40-65 | defined as: no pair stored twice, each shelf's orders increasing along the table, shelf ids positive and below the counter, every row on a stored shelf |
| `ShelfRoutes.Store.constructor` | cps/shelf.py:12 | an empty user/shelf store (the `ub` session) beside a given catalog (`calibre_db`) satisfies `Valid`, with the id counter at 1 |
| `ShelfRoutes.Store.AddToShelf` | cps/shelf.py:23-86 | a missing shelf gives 400 (xhr) or a redirect to the start page, whatever the book; a denied edit gives 403; a stored pair gives 400 with the shelf name; a book outside the catalog gives 400; each of these leaves the store unchanged, in this order of precedence; a failed commit leaves the store unchanged and redirects back even when xhr; success appends exactly `NextEntry`, changes only that shelf's `last_modified`, and answers `("", 204)` or a redirect back; the invariant is kept |
| `ShelfRoutes.Store.SaveShelf` | cps/shelf.py:102-123 | a read changes nothing and shows the current values (blank when creating); a submission whose commit fails changes nothing and shows the form again, with the submitted values on a create and the stored values on an edit (the rollback expires the stored shelf); a create inserts `NewShelf` under a fresh id that has no rows and opens it; an edit applies the form, stamps `now`, keeps the owner, and opens the shelf |
| `ShelfRoutes.Store.ShowShelf` | cps/shelf.py:126-161 | a missing or unviewable shelf redirects to the start page; otherwise the page shows the shelf and its `Listing` |
| `ShelfRoutes.ReadingShelf` | cps/shelf.py:64-111 | creating a private shelf as user 1 and adding book 7 gives shelf 1 owned by user 1 and the single row `(1, 7, 1)` |
| `ShelfRoutes.Scenario` | cps/shelf.py:23-130 | a private shelf of user 1 holding book 7: adding 7 again gives 400 naming the shelf, user 2 gets 403 adding and a redirect viewing, and the owner sees `[7]` |

## Left out

- Flash messages, their categories, translation (`_`) and logging: these are
  calls into other code with no state that the model observes. An interactive
  answer is reduced to its redirect target.
- The choice between the `HTTP_REFERER` page and the start page: it is the
  single target `Back`.
- The route wrappers `create_shelf` and `show_shelf`. They only call
  `SaveShelf` with `editId == 0` and `ShowShelf`, respectively.
- `render_show_shelf`'s `shelf_type`, `page_no`, `sort_param` and `pagesize`:
  they pick a template or are unused. Only the listing page (`shelf_type == 1`)
  is modelled.
- The projected book columns (title, authors, series, dates, two custom
  columns): a listing entry is the book id. The catalog is the set of valid ids.
- The login decorators (`user_login_required`): they belong to the external
  authentication layer.
- Session mechanics (`merge`, `add`). Expiry after a rollback appears only
  through its effect on the re-shown edit form. Exceptions other
  than the two database errors the handlers catch propagate out of the
  handlers and are not modelled.
- The race between two concurrent adds that read the same maximum: this is
  concurrency, and the model is sequential.
- Shelf columns that this file does not touch (uuid, creation date, sync flags).
  A new shelf's `last_modified` is set to `now`, standing for the column
  default. The column defaults are not part of this model.
- `Memberships.SortByOrder`: SQL's `ORDER BY order` leaves the order of equal
  orders unspecified. The model keeps insertion order among them and claims
  nothing about it in general. In every state that `Store.Valid` admits no two
  rows of a shelf share an order (`Memberships.ListingInInsertionOrder`).
- Ids are `nat`, as Flask's `int` route converter accepts only non-negative
  numbers, and it has no upper bound. A `shelf_id` or `book_id` of 2^63 or more
  does not fit SQLite's 64-bit INTEGER. The driver raises an `OverflowError`,
  which no handler catches, so the request ends in a 500. This can happen at
  the shelf lookups (cps/shelf.py:25, :127) or at the duplicate query (:40-43).
  The model answers such an id like any other absent id: `Store.AddToShelf`
  refuses it with "Invalid shelf specified" or an invalid-book 400, and
  `Store.ShowShelf` redirects to the start page.
