/** The yew front end: a component whose `update` takes one message at a time
    and changes the shared store and its own editing state. */
module YewApp {
  import opened TodoShared

  datatype Msg =
    | Add(description: string)
    | Edit(id: Id, value: string)
    | Remove(id: Id)
    | SetFilter(filter: Filter)
    | ToggleAll
    | ToggleEdit(id: Id)
    | Toggle(id: Id)
    | ClearCompleted
    | Focus

  /** What `update` needs of a message: `Toggle` and `ToggleEdit` name an entry
      that exists (the original aborts on a missing one). */
  ghost predicate Deliverable(es: seq<TodoEntry>, msg: Msg)
  {
    (msg.Toggle? || msg.ToggleEdit?) ==> HasId(es, msg.id)
  }

  class App {
    const data: Todos
    var editValue: string
    var editingId: Option<Id>

    /** `create`: the loaded store, nothing being edited. */
    constructor (data: Todos)
      ensures this.data == data && editValue == "" && editingId == None
    {
      this.data := data;
      editValue := "";
      editingId := None;
    }

    /** `update`: apply one message, then ask for a re-render. `freshId` is
        the id a new entry gets (`Add` only). `Focus` only moves the browser
        focus, which is not part of this state. */
    method Update(msg: Msg, freshId: Id) returns (rerender: bool)
      requires Deliverable(data.entries, msg)
      modifies this, data
      ensures rerender
      ensures msg.Add? ==>
        data.entries == old(data.entries) + [TodoEntry(freshId, msg.description, false)]
      // Edit: only the empty string deletes; any other text, blank or not, is
      // stored as it is; the edit buffer is cleared and the editing id kept.
      ensures msg.Edit? && msg.value == "" ==> data.entries == RemoveId(old(data.entries), msg.id)
      ensures msg.Edit? && msg.value != "" ==>
        data.entries == SetDescription(old(data.entries), msg.id, msg.value)
      ensures msg.Edit? ==> editValue == "" && editingId == old(editingId)
      ensures msg.Remove? ==> data.entries == RemoveId(old(data.entries), msg.id)
      ensures msg.SetFilter? ==> data.filter == msg.filter && data.entries == old(data.entries)
      ensures msg.ToggleAll? ==>
        data.entries == MarkFiltered(old(data.entries), old(data.filter), AnyActive(old(data.entries)))
      ensures msg.ToggleEdit? ==>
        var k := FindById(old(data.entries), msg.id).value;
        editingId == Some(msg.id) && editValue == old(data.entries)[k].description &&
        data.entries == old(data.entries)
      ensures msg.Toggle? ==> data.entries == ToggleById(old(data.entries), msg.id)
      ensures msg.ClearCompleted? ==> data.entries == FilterBy(old(data.entries), Active)
      ensures msg.Focus? ==> data.entries == old(data.entries)
      // Everything a message does not mention stays as it was.
      ensures !msg.SetFilter? ==> data.filter == old(data.filter)
      ensures !msg.Edit? && !msg.ToggleEdit? ==> editValue == old(editValue) && editingId == old(editingId)
      ensures UniqueIds(old(data.entries)) && (msg.Add? ==> !HasId(old(data.entries), freshId)) ==>
        UniqueIds(data.entries)
    {
      match msg {
        case Add(description) =>
          data.NewEntry(description, freshId);
        case Edit(id, value) =>
          if value == "" {
            data.RemoveById(id);
          } else {
            match FindById(data.entries, id) {
              case None =>
              case Some(k) =>
                data.entries := data.entries[k := data.entries[k].(description := value)];
                if UniqueIds(old(data.entries)) {
                  SameIdsKeepUnique(data.entries, old(data.entries));
                }
            }
          }
          editValue := "";
        case Remove(id) =>
          data.RemoveById(id);
        case SetFilter(filter) =>
          data.filter := filter;
        case ToggleEdit(id) =>
          var k := FindById(data.entries, id).value;
          editValue := data.entries[k].description;
          editingId := Some(id);
        case ToggleAll =>
          var status := !data.IsAllCompleted();
          data.SetCompletedForAll(status);
        case Toggle(id) =>
          var k := FindById(data.entries, id).value;
          data.entries := data.entries[k := data.entries[k].Toggled()];
          if UniqueIds(old(data.entries)) {
            SameIdsKeepUnique(data.entries, old(data.entries));
          }
        case ClearCompleted =>
          data.ClearCompleted();
        case Focus =>
      }
      rerender := true;
    }
  }
}
