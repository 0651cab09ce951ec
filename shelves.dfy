/**
 * Shelf records, the caller of a request, and the two permission predicates that
 * every handler of the shelf controller consults; also how the create/edit form
 * becomes shelf fields.
 */
module Shelves {

  /** An instant, as the store records it; opaque to the model (the handlers receive it). */
  type Timestamp = int

  /** One row of the shelf table. `isPublic` is the 0/1 column read as a truth value. */
  datatype Shelf = Shelf(name: string, userId: int, isPublic: bool, lastModified: Timestamp)

  /**
   * The authenticated user on whose behalf a handler runs: its id, whether it is
   * the anonymous (guest) user, and whether its role grants editing public shelves.
   */
  datatype Caller = Caller(id: int, isAnonymous: bool, canEditPublic: bool)

  /**
   * check_shelf_edit_permissions: a private shelf only by its owner, a public one
   * only by a caller whose role allows editing public shelves.
   */
  function CanEdit(shelf: Shelf, caller: Caller): (allowed: bool)
    ensures allowed <==> (!shelf.isPublic && shelf.userId == caller.id)
                         || (shelf.isPublic && caller.canEditPublic)
  {
    if !shelf.isPublic && shelf.userId != caller.id then false
    else if shelf.isPublic && !caller.canEditPublic then false
    else true
  }

  /**
   * check_shelf_view_permissions: a public shelf by everybody, a private one only
   * by its owner when the owner is logged in.
   */
  function CanView(shelf: Shelf, caller: Caller): (allowed: bool)
    ensures allowed <==> shelf.isPublic || (!caller.isAnonymous && shelf.userId == caller.id)
  {
    if shelf.isPublic then true
    else if caller.isAnonymous || shelf.userId != caller.id then false
    else true
  }

  /** Whoever may add books to a shelf may also open it, as long as they are logged in. */
  lemma EditImpliesView(shelf: Shelf, caller: Caller)
    requires CanEdit(shelf, caller) && !caller.isAnonymous
    ensures CanView(shelf, caller)
  {
  }

  /**
   * The edit check never consults the anonymous flag: the guest account may edit
   * a private shelf that it owns, although it may not open that shelf.
   */
  lemma GuestOwnerMayEditButNotView(shelf: Shelf, caller: Caller)
    requires !shelf.isPublic && caller.isAnonymous && shelf.userId == caller.id
    ensures CanEdit(shelf, caller) && !CanView(shelf, caller)
  {
  }

  /** The submitted form, one value per field name (`request.form.to_dict()`). */
  type Form = map<string, string>

  /** `to_save.get("title", "")`: the submitted title, or the empty string. */
  function FormTitle(form: Form): string
  {
    if "title" in form then form["title"] else ""
  }

  /** `to_save.get("is_public") == "on"`. */
  function FormIsPublic(form: Form): bool
  {
    "is_public" in form && form["is_public"] == "on"
  }

  /**
   * The fields a submission assigns on any shelf, new or existing: the name and
   * the visibility come from the form; the owner and the timestamp are untouched.
   */
  function ApplyForm(shelf: Shelf, form: Form): (updated: Shelf)
    ensures updated.name == if "title" in form then form["title"] else ""
    ensures updated.isPublic <==> "is_public" in form && form["is_public"] == "on"
    ensures updated.userId == shelf.userId && updated.lastModified == shelf.lastModified
  {
    shelf.(name := FormTitle(form), isPublic := FormIsPublic(form))
  }

  /** The form a shelf's edit page submits when nothing is changed on it. */
  function FormOf(shelf: Shelf): (form: Form)
  {
    if shelf.isPublic then map["title" := shelf.name, "is_public" := "on"]
    else map["title" := shelf.name]
  }

  /** Submitting a shelf's own values back leaves the shelf as it was. */
  lemma ResubmitIsIdentity(shelf: Shelf)
    ensures ApplyForm(shelf, FormOf(shelf)) == shelf
  {
  }

  /**
   * The shelf a create submission inserts: the form's fields, owned by the caller.
   * `now` stands for the creation default of `last_modified`.
   */
  function NewShelf(form: Form, caller: Caller, now: Timestamp): (shelf: Shelf)
    ensures shelf.userId == caller.id && shelf.lastModified == now
    ensures shelf.name == if "title" in form then form["title"] else ""
    ensures shelf.isPublic <==> "is_public" in form && form["is_public"] == "on"
  {
    ApplyForm(Shelf("", caller.id, false, now), form)
  }

  /** A form without the checkbox creates a private shelf; with `on`, a public one. */
  lemma CreateVisibility(caller: Caller, now: Timestamp, title: string)
    ensures !NewShelf(map["title" := title], caller, now).isPublic
    ensures NewShelf(map["title" := title, "is_public" := "on"], caller, now).isPublic
  {
  }
}
