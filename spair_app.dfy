/** The state machine of the spair front end: the shared store, the id of the
    entry being edited, and the text typed into the "new to-do" field. */
module SpairApp {
  import opened TodoShared
  import Text

  /** `get_value`: what the edit field holds, trimmed; `None` when there is no
      field or its text is blank. */
  function GetValue(input: Option<string>): (r: Option<string>)
    ensures r.None? <==> input.None? || Text.IsBlank(input.value)
    ensures r.Some? ==> r.value == Text.Trim(input.value)
    ensures r.Some? ==> r.value != [] && !Text.IsWhitespace(r.value[0]) && !Text.IsWhitespace(r.value[|r.value| - 1])
  {
    match input
    case None => None
    case Some(text) =>
      var trimmed := Text.Trim(text);
      Text.TrimEmptyIffBlank(text);
      if trimmed == [] then None else Some(trimmed)
  }

  class App {
    const data: Todos
    var editingId: Option<Id>
    var newDescription: string

    /** `init`: the loaded store, nothing being edited, an empty input field. */
    constructor (data: Todos)
      ensures this.data == data && editingId == None && newDescription == ""
    {
      this.data := data;
      editingId := None;
      newDescription := "";
    }

    method SetFilter(filter: Filter)
      modifies data
      ensures data.filter == filter && data.entries == old(data.entries)
      ensures editingId == old(editingId) && newDescription == old(newDescription)
    {
      data.filter := filter;
    }

    method SetCompletedForAll(completed: bool)
      modifies data
      ensures data.entries == MarkFiltered(old(data.entries), old(data.filter), completed)
      ensures data.filter == old(data.filter)
      ensures editingId == old(editingId) && newDescription == old(newDescription)
      ensures UniqueIds(old(data.entries)) ==> UniqueIds(data.entries)
    {
      data.SetCompletedForAll(completed);
    }

    /** The toggle-all checkbox: mark the current view with the negation of
        "every entry is completed", where "every" ranges over all entries. */
    method ToggleAll()
      modifies data
      ensures data.entries == MarkFiltered(old(data.entries), old(data.filter), AnyActive(old(data.entries)))
      ensures data.filter == old(data.filter)
      ensures editingId == old(editingId) && newDescription == old(newDescription)
      ensures UniqueIds(old(data.entries)) ==> UniqueIds(data.entries)
    {
      var allCompleted := data.IsAllCompleted();
      SetCompletedForAll(!allCompleted);
    }

    /** Flip the entry with `id`; nothing happens when there is none. */
    method ToggleCompletion(id: Id)
      modifies data
      ensures data.entries == ToggleById(old(data.entries), id)
      ensures !HasId(old(data.entries), id) ==> data.entries == old(data.entries)
      ensures data.filter == old(data.filter)
      ensures editingId == old(editingId) && newDescription == old(newDescription)
      ensures UniqueIds(old(data.entries)) ==> UniqueIds(data.entries)
    {
      match FindById(data.entries, id) {
        case None =>
        case Some(k) =>
          data.entries := data.entries[k := data.entries[k].Toggled()];
      }
      if UniqueIds(old(data.entries)) {
        SameIdsKeepUnique(data.entries, old(data.entries));
      }
    }

    method RemoveById(id: Id)
      modifies data
      ensures data.entries == RemoveId(old(data.entries), id)
      ensures data.filter == old(data.filter)
      ensures editingId == old(editingId) && newDescription == old(newDescription)
      ensures UniqueIds(old(data.entries)) ==> UniqueIds(data.entries)
    {
      data.RemoveById(id);
    }

    method ClearCompleted()
      modifies data
      ensures data.entries == FilterBy(old(data.entries), Active)
      ensures data.filter == old(data.filter)
      ensures editingId == old(editingId) && newDescription == old(newDescription)
      ensures UniqueIds(old(data.entries)) ==> UniqueIds(data.entries)
    {
      data.ClearCompleted();
    }

    /** The "new to-do" field's input handler: remember the typed text. */
    method SetNewDescription(text: string)
      modifies this
      ensures newDescription == text && editingId == old(editingId)
    {
      newDescription := text;
    }

    /** Enter in the "new to-do" field: add the typed text as it is (not
        trimmed, possibly empty) under the fresh id `freshId`, then clear the field. */
    method CreateNewTodo(freshId: Id)
      modifies this, data
      ensures data.entries == old(data.entries) + [TodoEntry(freshId, old(newDescription), false)]
      ensures newDescription == ""
      ensures data.filter == old(data.filter) && editingId == old(editingId)
      ensures UniqueIds(old(data.entries)) && !HasId(old(data.entries), freshId) ==> UniqueIds(data.entries)
    {
      data.NewEntry(newDescription, freshId);
      newDescription := "";
    }

    method StartEditing(id: Id)
      modifies this
      ensures editingId == Some(id) && newDescription == old(newDescription)
    {
      editingId := Some(id);
    }

    /** Finish editing: a new description replaces the edited entry's, `None`
        removes the entry; afterwards nothing is being edited. The edited id
        must still be in the list when a description is given (the original
        aborts otherwise). */
    method EndEditing(newDesc: Option<string>)
      requires editingId.Some? && newDesc.Some? ==> HasId(data.entries, editingId.value)
      modifies this, data
      ensures old(editingId).None? ==> data.entries == old(data.entries) && editingId == None
      ensures old(editingId).Some? && newDesc.Some? ==>
        data.entries == SetDescription(old(data.entries), old(editingId).value, newDesc.value)
      ensures old(editingId).Some? && newDesc.None? ==>
        data.entries == RemoveId(old(data.entries), old(editingId).value)
      ensures editingId == None
      ensures data.filter == old(data.filter) && newDescription == old(newDescription)
      ensures UniqueIds(old(data.entries)) ==> UniqueIds(data.entries)
    {
      var id;
      match editingId {
        case None => return;
        case Some(i) => id := i;
      }
      match newDesc {
        case Some(d) =>
          var k := FindById(data.entries, id).value;
          data.entries := data.entries[k := data.entries[k].(description := d)];
          if UniqueIds(old(data.entries)) {
            SameIdsKeepUnique(data.entries, old(data.entries));
          }
        case None =>
          RemoveById(id);
      }
      editingId := None;
    }

    /** Blur or Enter in the edit field: `end_editing(get_value(field))`.
        A blank text removes the edited entry; any other text is stored trimmed. */
    method CommitEdit(input: Option<string>)
      requires editingId.Some? && GetValue(input).Some? ==> HasId(data.entries, editingId.value)
      modifies this, data
      ensures old(editingId).Some? && (input.None? || Text.IsBlank(input.value)) ==>
        data.entries == RemoveId(old(data.entries), old(editingId).value)
      ensures old(editingId).Some? && input.Some? && !Text.IsBlank(input.value) ==>
        data.entries == SetDescription(old(data.entries), old(editingId).value, Text.Trim(input.value))
      ensures old(editingId).None? ==> data.entries == old(data.entries)
      ensures editingId == None
      ensures data.filter == old(data.filter) && newDescription == old(newDescription)
      ensures UniqueIds(old(data.entries)) ==> UniqueIds(data.entries)
    {
      EndEditing(GetValue(input));
    }

    /** Escape in the edit field. */
    method CancelEditing()
      modifies this
      ensures editingId == None && newDescription == old(newDescription)
    {
      editingId := None;
    }
  }
}
