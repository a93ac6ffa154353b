/**
 * Editing an entry: validate the trimmed fields, require a signed-in user, update the
 * title and content of the row with the entry's id and the caller's id, then tell the
 * parent to refresh and close the dialog.
 */
module EditEntryForm {
  import opened Wrappers
  import opened Text
  import opened Types
  import opened Database

  /** The handler's outcome, one per message it shows. */
  datatype EditOutcome = MissingFields | NotLoggedIn | UpdateFailed | Updated

  /** The parent's callbacks, in the order they are invoked. */
  datatype Callback = OnUpdate | OnClose

  datatype EditResult = EditResult(outcome: EditOutcome, entries: seq<Entry>, callbacks: seq<Callback>)

  /** The row the update statement targets: the edited entry's id, owned by the caller. */
  predicate Targets(row: Entry, entry: Entry, userId: string)
  {
    row.id == entry.id && row.userId == userId
  }

  /** The whole edit as a function of the entries table before it and the answers the handler receives. */
  function Edit(es: seq<Entry>, entry: Entry, title: string, content: string,
                user: Option<string>, updateFails: bool): (r: EditResult)
    // empty fields or no user: nothing is updated and no callback runs
    ensures Trim(title) == [] || Trim(content) == [] ==> r == EditResult(MissingFields, es, [])
    ensures Trim(title) != [] && Trim(content) != [] && user.None? ==> r == EditResult(NotLoggedIn, es, [])
    ensures r.outcome != Updated ==> r.entries == es
    // onUpdate then onClose, and only after a successful update
    ensures r.callbacks == if r.outcome == Updated then [OnUpdate, OnClose] else []
    ensures r.outcome == Updated <==> Trim(title) != [] && Trim(content) != [] && user.Some? && !updateFails
    ensures r.outcome == UpdateFailed <==> Trim(title) != [] && Trim(content) != [] && user.Some? && updateFails
    // a success is the scoped update with the trimmed fields (what that changes: see UpdateRows)
    ensures r.outcome == Updated ==>
              r.entries == UpdateRows(es, entry.id, user.value, Trim(title), Trim(content))
  {
    if Trim(title) == [] || Trim(content) == [] then EditResult(MissingFields, es, [])
    else if user.None? then EditResult(NotLoggedIn, es, [])
    else if updateFails then EditResult(UpdateFailed, es, [])
    else
      var es' := UpdateRows(es, entry.id, user.value, Trim(title), Trim(content));
      EditResult(Updated, es', [OnUpdate, OnClose])
  }

  /** Whatever the answers, a row owned by someone other than the caller is never touched. */
  lemma ForeignRowsUntouched(es: seq<Entry>, entry: Entry, title: string, content: string,
                             user: Option<string>, updateFails: bool, k: nat)
    requires k < |es| && (user.None? || es[k].userId != user.value)
    ensures var r := Edit(es, entry, title, content, user, updateFails);
            k < |r.entries| && r.entries[k] == es[k]
  {
  }

  /** An edit that matches no row (another owner's entry, or a deleted one) still reports success and changes nothing. */
  lemma NoMatchStillSucceeds(es: seq<Entry>, entry: Entry, title: string, content: string, userId: string)
    requires Trim(title) != [] && Trim(content) != []
    requires forall k :: 0 <= k < |es| ==> !Targets(es[k], entry, userId)
    ensures Edit(es, entry, title, content, Some(userId), false) == EditResult(Updated, es, [OnUpdate, OnClose])
  {
    assert UpdateRows(es, entry.id, userId, Trim(title), Trim(content)) == es;
  }

  /** Whatever the answers, the keys and ownership constraints still hold after an edit. */
  lemma EditKeepsValid(cs: seq<Category>, es: seq<Entry>, entry: Entry, title: string, content: string,
                       user: Option<string>, updateFails: bool)
    requires TablesValid(cs, es)
    ensures TablesValid(cs, Edit(es, entry, title, content, user, updateFails).entries)
  {
    if user.Some? {
      UpdateKeepsValid(cs, es, entry.id, user.value, Trim(title), Trim(content));
    }
  }

  /**
   * The submit handler over the store: the early returns of the source, the scoped
   * update, then the callbacks in order.
   */
  method HandleEdit(store: Store, entry: Entry, title: string, content: string,
                    user: Option<string>, updateFails: bool)
    returns (outcome: EditOutcome, callbacks: seq<Callback>)
    requires store.Valid() && store.Owned()
    modifies store
    ensures store.Valid() && store.Owned()
    ensures store.categories == old(store.categories)
    ensures EditResult(outcome, store.entries, callbacks)
            == Edit(old(store.entries), entry, title, content, user, updateFails)
  {
    ghost var spec := Edit(store.entries, entry, title, content, user, updateFails);
    EditKeepsValid(store.categories, store.entries, entry, title, content, user, updateFails);
    var newTitle := Trim(title);
    var newContent := Trim(content);
    callbacks := [];
    if newTitle == [] || newContent == [] {
      return MissingFields, callbacks;
    }
    if user.None? {
      return NotLoggedIn, callbacks;
    }
    var ok := store.UpdateEntry(entry.id, user.value, newTitle, newContent, updateFails);
    if !ok {
      return UpdateFailed, callbacks;
    }
    // onUpdate(), then onClose()
    callbacks := [OnUpdate, OnClose];
    outcome := Updated;
  }
}
