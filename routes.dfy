/**
 * The shelf controller's handlers over the user/shelf store: adding a book to a
 * shelf, saving the create/edit form, and showing one shelf. Each handler returns
 * the response it would send, reduced to its kind; the catalog of books is read only.
 */
module ShelfRoutes {
  import opened Shelves
  import opened Memberships

  /** Where a redirect leads: the start page, the referring page (start page if none), a shelf page. */
  datatype Target = Index | Back | ShelfView(shelfId: nat)

  datatype Response =
    | Plain(body: string, status: nat)             // machine-facing body and status code
    | Redirect(target: Target)                      // human-facing redirect
    | ShelfPage(shelf: Shelf, entries: seq<nat>)    // the rendered listing of a shelf
    | EditForm(name: string, isPublic: bool)        // the create/edit form, showing these values

  /** How a refused add answers: a bare status to a script, a redirect to the start page otherwise. */
  function Refuse(xhr: bool, body: string, status: nat): Response
  {
    if xhr then Plain(body, status) else Redirect(Index)
  }

  function DigitChar(d: nat): char
    requires d < 10
  {
    "0123456789"[d]
  }

  /** The decimal spelling of a number, as `%s` prints it. */
  function DecimalString(n: nat): string
  {
    if n < 10 then [DigitChar(n)] else DecimalString(n / 10) + [DigitChar(n % 10)]
  }

  const InvalidShelfBody := "Invalid shelf specified"
  const NotAllowedBody := "Sorry you are not allowed to add a book to that shelf"

  function AlreadyInShelfBody(shelfName: string): string
  {
    "Book is already part of the shelf: " + shelfName
  }

  function InvalidBookBody(bookId: nat): string
  {
    DecimalString(bookId) + " is an invalid Book Id. Could not be added to Shelf"
  }

  /** The user/shelf store, and the catalog of books beside it. */
  class Store {
    var shelves: map<nat, Shelf>
    var memberships: seq<Membership>
    /** The id the next created shelf receives (the table's auto-increment counter). */
    var nextId: nat
    const catalog: set<nat>

    /**
     * Every (shelf, book) pair is stored once; each shelf's orders increase along
     * the table, in the order its rows were added; shelf ids are positive and below the
     * counter; every membership row belongs to a stored shelf.
     */
    ghost predicate Valid()
      reads this
    {
      NoDuplicatePairs(memberships)
      && OrdersIncrease(memberships)
      && 1 <= nextId
      && (forall id :: id in shelves ==> 1 <= id < nextId)
      && (forall i :: 0 <= i < |memberships| ==> memberships[i].shelf in shelves)
    }

    constructor (catalog: set<nat>)
      ensures Valid()
      ensures shelves == map[] && memberships == [] && nextId == 1 && this.catalog == catalog
    {
      shelves := map[];
      memberships := [];
      nextId := 1;
      this.catalog := catalog;
    }

    /**
     * add_to_shelf. The checks run in a fixed order — the shelf exists, the caller
     * may edit it, the book is not on it yet, the catalog holds the book — and the
     * first that fails decides the answer and leaves the store as it was. Otherwise
     * one row is appended after the shelf's last, the shelf is stamped with `now`
     * and both are committed; a failing commit (`commitFails`) is rolled back.
     */
    method AddToShelf(shelfId: nat, bookId: nat, caller: Caller, xhr: bool, now: Timestamp, commitFails: bool)
      returns (resp: Response)
      requires Valid()
      modifies this
      ensures Valid()
      ensures shelfId !in old(shelves) ==>
        unchanged(this) && resp == Refuse(xhr, InvalidShelfBody, 400)
      ensures shelfId in old(shelves) && !CanEdit(old(shelves)[shelfId], caller) ==>
        unchanged(this) && resp == Refuse(xhr, NotAllowedBody, 403)
      ensures shelfId in old(shelves) && CanEdit(old(shelves)[shelfId], caller)
              && InShelf(old(memberships), shelfId, bookId) ==>
        unchanged(this) && resp == Refuse(xhr, AlreadyInShelfBody(old(shelves)[shelfId].name), 400)
      ensures shelfId in old(shelves) && CanEdit(old(shelves)[shelfId], caller)
              && !InShelf(old(memberships), shelfId, bookId) && bookId !in catalog ==>
        unchanged(this) && resp == Refuse(xhr, InvalidBookBody(bookId), 400)
      ensures shelfId in old(shelves) && CanEdit(old(shelves)[shelfId], caller)
              && !InShelf(old(memberships), shelfId, bookId) && bookId in catalog && commitFails ==>
        unchanged(this) && resp == Redirect(Back)
      ensures shelfId in old(shelves) && CanEdit(old(shelves)[shelfId], caller)
              && !InShelf(old(memberships), shelfId, bookId) && bookId in catalog && !commitFails ==>
        && memberships == old(memberships) + [NextEntry(old(memberships), shelfId, bookId)]
        && shelves == old(shelves)[shelfId := old(shelves)[shelfId].(lastModified := now)]
        && nextId == old(nextId)
        && resp == (if xhr then Plain("", 204) else Redirect(Back))
    {
      if shelfId !in shelves {
        return Refuse(xhr, InvalidShelfBody, 400);
      }
      var shelf := shelves[shelfId];
      if !CanEdit(shelf, caller) {
        return Refuse(xhr, NotAllowedBody, 403);
      }
      if InShelf(memberships, shelfId, bookId) {
        return Refuse(xhr, AlreadyInShelfBody(shelf.name), 400);
      }
      var maxOrder := MaxOrder(memberships, shelfId);
      if bookId !in catalog {
        return Refuse(xhr, InvalidBookBody(bookId), 400);
      }
      var savedShelves, savedRows := shelves, memberships;
      assert Membership(shelfId, bookId, maxOrder + 1) == NextEntry(memberships, shelfId, bookId);
      AppendKeepsNoDuplicates(memberships, Membership(shelfId, bookId, maxOrder + 1));
      AppendKeepsOrdersIncreasing(memberships, shelfId, bookId);
      memberships := memberships + [Membership(shelfId, bookId, maxOrder + 1)];
      shelves := shelves[shelfId := shelf.(lastModified := now)];
      if commitFails {
        // the rollback discards both writes; the caller is redirected even when xhr
        shelves, memberships := savedShelves, savedRows;
        return Redirect(Back);
      }
      resp := if xhr then Plain("", 204) else Redirect(Back);
    }

    /**
     * create_edit_shelf. `editId` is the id of the shelf being edited, or 0 (Python's
     * `False`) to create one. A read shows the form; a submission takes the title and
     * the checkbox from the form, makes the caller the owner of a new shelf, stamps an
     * edited one, and opens the saved shelf; a failed commit keeps the store and shows
     * the form again: with the submitted values for a new shelf, with the stored ones
     * for an edited shelf. Editing performs no permission check of its own.
     */
    method SaveShelf(editId: nat, post: bool, form: Form, caller: Caller, now: Timestamp, commitFails: bool)
      returns (resp: Response)
      requires Valid()
      requires editId != 0 ==> editId in shelves
      modifies this
      ensures Valid()
      ensures !post ==> unchanged(this)
      ensures !post && editId == 0 ==> resp == EditForm("", false)
      ensures !post && editId != 0 ==>
        resp == EditForm(old(shelves)[editId].name, old(shelves)[editId].isPublic)
      ensures post && commitFails ==> unchanged(this)
      ensures post && commitFails && editId == 0 ==> resp == EditForm(FormTitle(form), FormIsPublic(form))
      ensures post && commitFails && editId != 0 ==>
        resp == EditForm(old(shelves)[editId].name, old(shelves)[editId].isPublic)
      ensures post && !commitFails && editId == 0 ==>
        && old(nextId) !in old(shelves)
        && shelves == old(shelves)[old(nextId) := NewShelf(form, caller, now)]
        && nextId == old(nextId) + 1
        && memberships == old(memberships)
        && RowsOf(memberships, old(nextId)) == []
        && resp == Redirect(ShelfView(old(nextId)))
      ensures post && !commitFails && editId != 0 ==>
        && shelves == old(shelves)[editId := ApplyForm(old(shelves)[editId], form).(lastModified := now)]
        && nextId == old(nextId)
        && memberships == old(memberships)
        && resp == Redirect(ShelfView(editId))
    {
      if !post {
        if editId == 0 {
          return EditForm("", false);
        }
        return EditForm(shelves[editId].name, shelves[editId].isPublic);
      }
      if commitFails {
        // the rollback drops a new shelf with its submitted values still set, but
        // expires a stored one, so the form shows what the store still holds
        if editId == 0 {
          return EditForm(FormTitle(form), FormIsPublic(form));
        }
        return EditForm(shelves[editId].name, shelves[editId].isPublic);
      }
      if editId == 0 {
        var id := nextId;
        RowsOfAbsent(memberships, id);
        shelves := shelves[id := NewShelf(form, caller, now)];
        nextId := nextId + 1;
        resp := Redirect(ShelfView(id));
      } else {
        shelves := shelves[editId := ApplyForm(shelves[editId], form).(lastModified := now)];
        resp := Redirect(ShelfView(editId));
      }
    }

    /**
     * render_show_shelf for the listing page: a missing shelf and one the caller may
     * not view both send the caller to the start page; otherwise the page lists the
     * catalog books the shelf holds, by ascending order.
     */
    method ShowShelf(shelfId: nat, caller: Caller) returns (resp: Response)
      ensures shelfId !in shelves || !CanView(shelves[shelfId], caller) ==> resp == Redirect(Index)
      ensures shelfId in shelves && CanView(shelves[shelfId], caller) ==>
        resp == ShelfPage(shelves[shelfId], Listing(memberships, shelfId, catalog))
    {
      if shelfId !in shelves || !CanView(shelves[shelfId], caller) {
        return Redirect(Index);
      }
      resp := ShelfPage(shelves[shelfId], Listing(memberships, shelfId, catalog));
    }
  }

  /** The single-row table of the walk below lists exactly that book. */
  lemma OneRowListing()
    ensures Listing([Membership(1, 7, 1)], 1, {7, 8}) == [7]
  {
    var row := Membership(1, 7, 1);
    RowsOfSnoc([], 1, row);
    assert InCatalog([row], {7, 8}) == [row] by { assert [row][..0] == []; }
    assert SortByOrder([row]) == [row] by { assert [row][..0] == []; }
    assert ShelfEntries([row], 1, {7, 8}) == [row];
  }

  /** A fresh store in which user 1 created the private shelf "Reading" and added book 7 to it. */
  method ReadingShelf() returns (store: Store)
    ensures fresh(store) && store.Valid() && store.catalog == {7, 8}
    ensures store.shelves == map[1 := Shelf("Reading", 1, false, 101)]
    ensures store.memberships == [Membership(1, 7, 1)]
  {
    var owner := Caller(1, false, false);
    store := new Store({7, 8});
    var created := store.SaveShelf(0, true, map["title" := "Reading"], owner, 100, false);
    assert store.shelves == map[1 := Shelf("Reading", 1, false, 100)];
    var added := store.AddToShelf(1, 7, owner, true, 101, false);
  }

  /**
   * A walk through one shelf's life: a private shelf of user 1, holding book 7 after
   * one add. Adding 7 again is refused as a duplicate, user 2 may neither add to it
   * nor view it, and the owner sees book 7 listed.
   */
  method Scenario() returns (again: Response, stranger: Response, peek: Response, own: Response)
    ensures again == Plain(AlreadyInShelfBody("Reading"), 400)
    ensures stranger == Plain(NotAllowedBody, 403)
    ensures peek == Redirect(Index)
    ensures own.ShelfPage? && own.entries == [7]
  {
    var owner := Caller(1, false, false);
    var other := Caller(2, false, false);
    var store := ReadingShelf();
    assert InShelf(store.memberships, 1, 7) by { assert store.memberships[0] == Membership(1, 7, 1); }
    again := store.AddToShelf(1, 7, owner, true, 102, false);
    assert store.shelves[1] == Shelf("Reading", 1, false, 101);
    stranger := store.AddToShelf(1, 8, other, true, 103, false);
    assert store.shelves[1] == Shelf("Reading", 1, false, 101);
    peek := store.ShowShelf(1, other);
    own := store.ShowShelf(1, owner);
    OneRowListing();
  }
}
