# TodoMVC store and front-end state machines, in Dafny

This project models the part of the Rust TodoMVC comparison repository that
holds state and changes it:

- **The shared store** (`todo_shared.dfy`, module `TodoShared`). `Todos` is a
  class with the ordered entry list (`entries: seq<TodoEntry>`) and the active
  `Filter`. Its methods update them in place: `NewEntry`, `ClearCompleted`,
  `RemoveById`, `RemoveByIndex`, and `SetCompletedForAll`, whose loop makes one
  pass over the entries. Its queries are functions. Each store update is tied to a
  pure function of the old list: `FilterBy`, `RemoveId` or `MarkFiltered`.
  The front ends' in-place edits of single entries are tied to `ToggleById`
  (`SpairApp.App.ToggleCompletion`, the yew `Toggle` message) and
  `SetDescription` (`SpairApp.App.EndEditing`, the yew `Edit` message). Lemmas about these functions state what the
  store promises:
  - the filtered view keeps the original order (`SubseqOf`);
  - counts are bounded and agree with the views;
  - "all completed" has three equivalent readings;
  - removal is idempotent and a no-op when the id is absent;
  - toggling twice restores the list;
  - removing the n-th entry of the view removes exactly that element from the view.
  Entry ids are natural numbers supplied by the caller in place of random
  UUIDs. The original never checks that ids are unique, so uniqueness
  (`UniqueIds`) is not a precondition. Instead, every update of the store and of
  both front ends promises that it keeps unique ids unique. For a new entry this holds when its id is fresh.
- **Trimming** (`text.dfy`, module `Text`). Rust's `str::trim` cuts Unicode
  `White_Space` characters from both ends.
- **The spair front end** (`spair_app.dfy`, module `SpairApp`). `App` holds the
  store, the id being edited and the pending new-entry text. Two of its methods
  model event handlers:
  - `CommitEdit` is the edit field's blur and Enter handler. It calls
    `end_editing(get_value(..))`, so a blank edit deletes the entry and any
    other edit is stored trimmed.
  - `ToggleAll` is the toggle-all checkbox handler.
- **The yew front end** (`yew_app.dfy`, module `YewApp`). `App.Update` is the
  message dispatcher. It differs from spair in three ways:
  - `Edit` deletes only on the exact empty string and stores other text
    untrimmed.
  - `Edit` keeps the editing id.
  - `Toggle` and `ToggleEdit` must name an existing entry.
- **The spair router** (`router.dfy`, module `Router`). The fragments
  `#completed` and `#active` select their views, and everything else selects
  `All`. The links the filters render (`as_href`) are `#/`, `#/active` and
  `#/completed`. `UrlRoutesToAll` proves that every one of these links routes
  to `All`. The two directions therefore do not round-trip, and the model does
  not claim that they do.

In these places the model follows the code, which a reader might not expect:
- the router matches `#completed`/`#active`, not the `#/…` fragments;
- `remove_by_id` removes every entry with the id, not just one;
- entries may be created with an empty or blank description (spair
  `create_new_todo`, yew `Add`);
- the "blank edit deletes" rule lives in the front ends, not in the store, and
  spair and yew apply it differently.

## Model

| member | source | states |
|---|---|---|
| `TodoShared.TodoEntry.Toggled` | todomvc/todomvc_shared/src/lib.rs:44-46 | the flag is negated; id and description are kept |
| `TodoShared.ToggledTwice` | todomvc/todomvc_shared/src/lib.rs:44-46 | toggling twice gives back the same entry, and one toggle always changes it |
| `TodoShared.FitsByFlag` | todomvc/todomvc_shared/src/lib.rs:26-32 | `All` accepts every entry; `Active` accepts exactly the uncompleted and `Completed` exactly the completed ones, so each entry fits exactly one of the two |
| `TodoShared.Filter.AsHref` | todomvc/todomvc_shared/src/lib.rs:34-40 | every link fragment starts with `#/` |
| `TodoShared.HrefsDistinct` | todomvc/todomvc_shared/src/lib.rs:34-40 | the three fragments are pairwise distinct (equal iff the filters are equal) |
| `TodoShared.SubseqKeepsUnique` | todomvc/todomvc_shared/src/lib.rs:121-123 | dropping entries while keeping order (as `retain` does) never creates duplicate ids |
| `TodoShared.FilterBy` | todomvc/todomvc_shared/src/lib.rs:101-104 | every element of the view fits the filter; the view is no longer than the list |
| `TodoShared.FilterByMembers` | todomvc/todomvc_shared/src/lib.rs:101-104 | an entry is in the view iff it is in the list and fits the filter |
| `TodoShared.FilterBySubseq` | todomvc/todomvc_shared/src/lib.rs:101-104 | the view is an order-preserving subsequence of the entries |
| `TodoShared.FilterByConcat` | todomvc/todomvc_shared/src/lib.rs:101-104 | the view of a concatenation is the concatenation of the views |
| `TodoShared.FilterByIdempotent` | todomvc/todomvc_shared/src/lib.rs:101-104 | filtering a view again by the same filter changes nothing |
| `TodoShared.CountCompleted` | todomvc/todomvc_shared/src/lib.rs:76-81 | the completed count never exceeds the number of entries |
| `TodoShared.CountCompletedViews` | todomvc/todomvc_shared/src/lib.rs:76-81 | the completed count is the length of the `Completed` view; adding the `Active` view's length gives the entry count, so "items left" cannot underflow |
| `TodoShared.AnyActive` | todomvc/todomvc_shared/src/lib.rs:83-89 | true exactly when some entry is not completed |
| `TodoShared.AllCompletedIff` | todomvc/todomvc_shared/src/lib.rs:83-89 | "all completed" holds iff every entry is completed, iff the completed count equals the entry count, iff the `Active` view is empty; it holds on the empty list |
| `TodoShared.FindById` | todomvc/todomvc_shared/src/lib.rs:97-99 | finds the first entry with the id, or reports `None` exactly when no entry has it |
| `TodoShared.FindByIdUnique` | todomvc/todomvc_shared/src/lib.rs:97-99 | with unique ids, the entry found is the only one with that id |
| `TodoShared.NthFitting` | todomvc/todomvc_shared/src/lib.rs:111-113 | the position of the n-th fitting entry: it fits and exactly n fitting entries precede it; `None` exactly when the view is shorter than n+1 |
| `TodoShared.RemoveNthOfView` | todomvc/todomvc_shared/src/lib.rs:125-134 | that position holds the n-th element of the view, and removing it from the list removes exactly that element from the view |
| `TodoShared.RemoveId` | todomvc/todomvc_shared/src/lib.rs:121-123 | keeps exactly the entries whose id differs |
| `TodoShared.RemoveIdSubseq` | todomvc/todomvc_shared/src/lib.rs:121-123 | the remaining entries keep their relative order |
| `TodoShared.RemoveIdAbsent` | todomvc/todomvc_shared/src/lib.rs:121-123 | removing an absent id changes nothing |
| `TodoShared.RemoveIdIdempotent` | todomvc/todomvc_shared/src/lib.rs:121-123 | removing the same id twice equals removing it once |
| `TodoShared.RemoveIdCount` | todomvc/todomvc_shared/src/lib.rs:121-123 | with unique ids, removing a present id shortens the list by exactly one |
| `TodoShared.RemoveNewEntry` | todomvc/todomvc_shared/src/lib.rs:64-70 | adding an entry with a fresh id and then removing that id restores the list |
| `TodoShared.NewEntryViews` | todomvc/todomvc_shared/src/lib.rs:64-70 | a new entry joins the end of the `Active` view; the `Completed` view and the completed count are unchanged; "all completed" becomes false |
| `TodoShared.ClearCompletedEffects` | todomvc/todomvc_shared/src/lib.rs:91-95 | after clearing, nothing is completed, exactly the completed entries are gone, and clearing again changes nothing |
| `TodoShared.MarkFiltered` | todomvc/todomvc_shared/src/lib.rs:115-119 | entries that fit the filter get the flag; all others, and all ids and descriptions, are unchanged |
| `TodoShared.MarkDoneCompletesAll` | todomvc/todomvc_shared/src/lib.rs:115-119 | marking done through the `All` or `Active` view completes every entry |
| `TodoShared.MarkUndoneClearsAll` | todomvc/todomvc_shared/src/lib.rs:115-119 | marking not done through the `All` view leaves no completed entry |
| `TodoShared.MarkWithinOwnViewNoop` | todomvc/todomvc_shared/src/lib.rs:115-119 | marking done under `Completed`, or not done under `Active`, changes nothing |
| `TodoShared.ToggleAllActiveViewAllDone` | todomvc/yew_non_keyed/src/main.rs:70-73 | the toggle-all flag is computed over all entries, so under `Active` with everything completed toggle-all changes nothing |
| `TodoShared.ToggleAllAllView` | todomvc/yew_non_keyed/src/main.rs:70-73 | under `All`, toggle-all completes everything unless everything was completed, in which case it leaves nothing completed |
| `TodoShared.ToggleById` | todomvc/spair_shared/src/lib.rs:39-45 | only the first entry with the id has its flag flipped; ids and descriptions are unchanged |
| `TodoShared.ToggleByIdTwice` | todomvc/spair_shared/src/lib.rs:39-45 | toggling the same id twice restores the list |
| `TodoShared.SetDescription` | todomvc/spair_shared/src/lib.rs:79-88 | only the first entry with the id gets the new description; positions, ids and flags are unchanged |
| `TodoShared.Todos.constructor` | todomvc/todomvc_shared/src/lib.rs:5-9 | the store holds exactly the given entries and filter |
| `TodoShared.Todos.NewEntry` | todomvc/todomvc_shared/src/lib.rs:64-70 | appends one uncompleted entry with the untrimmed description and the fresh id; filter unchanged; unique ids stay unique when the id is fresh |
| `TodoShared.Todos.EntryCount` | todomvc/todomvc_shared/src/lib.rs:72-74 | the entry count is the sum of the `Active` and `Completed` view lengths |
| `TodoShared.Todos.CompletedCount` | todomvc/todomvc_shared/src/lib.rs:76-81 | equals the `Completed` view's length and never exceeds `EntryCount` |
| `TodoShared.Todos.IsAllCompleted` | todomvc/todomvc_shared/src/lib.rs:83-89 | holds iff every entry is completed, iff `CompletedCount() == EntryCount()` |
| `TodoShared.Todos.GetFilteredEntries` | todomvc/todomvc_shared/src/lib.rs:101-104 | an order-preserving subsequence holding exactly the entries that fit the active filter |
| `TodoShared.Todos.ClearCompleted` | todomvc/todomvc_shared/src/lib.rs:91-95 | the new list is the `Active` view of the old one; filter unchanged; unique ids stay unique |
| `TodoShared.Todos.RemoveById` | todomvc/todomvc_shared/src/lib.rs:121-123 | the new list is the old one without the id's entries; filter unchanged; unique ids stay unique |
| `TodoShared.Todos.RemoveByIndex` | todomvc/todomvc_shared/src/lib.rs:125-135 | nothing changes when the view is too short; otherwise the list loses the view's index-th entry, the new view is the old view without its index-th element, and unique ids stay unique |
| `TodoShared.Todos.SetCompletedForAll` | todomvc/todomvc_shared/src/lib.rs:115-119 | the loop leaves the list equal to `MarkFiltered` of the old list under the filter at call time; filter unchanged; unique ids stay unique |
| `Text.ContentStart` | todomvc/spair_shared/src/lib.rs:333 | the first non-whitespace position at or after the start point; everything skipped is blank |
| `Text.ContentEnd` | todomvc/spair_shared/src/lib.rs:333 | the position just after the last non-whitespace character before the end point; everything after it is blank |
| `Text.TrimStart` | todomvc/spair_shared/src/lib.rs:333 | a suffix of the text whose dropped part is blank and which does not start with whitespace |
| `Text.TrimEnd` | todomvc/spair_shared/src/lib.rs:333 | a prefix of the text whose dropped part is blank and which does not end with whitespace |
| `Text.Trim` | todomvc/spair_shared/src/lib.rs:333 | a contiguous middle part of the text with blank ends cut off, neither starting nor ending with whitespace |
| `Text.TrimEmptyIffBlank` | todomvc/spair_shared/src/lib.rs:333-334 | the trimmed text is empty iff the text is blank |
| `Text.TrimIdempotent` | todomvc/spair_shared/src/lib.rs:333 | trimming twice equals trimming once |
| `SpairApp.GetValue` | todomvc/spair_shared/src/lib.rs:330-339 | `None` iff there is no field or its text is blank; otherwise the trimmed text, non-empty, with no whitespace at either end |
| `SpairApp.App.constructor` | todomvc/spair_shared/src/lib.rs:342-348 | starts from the loaded store, with nothing being edited and an empty input field |
| `SpairApp.App.SetFilter` | todomvc/spair_shared/src/lib.rs:27-31 | replaces the filter; entries, editing id and pending text unchanged |
| `SpairApp.App.SetCompletedForAll` | todomvc/spair_shared/src/lib.rs:33-37 | delegates to the store: `MarkFiltered` under the current filter; editing state unchanged |
| `SpairApp.App.ToggleAll` | todomvc/spair_shared/src/lib.rs:153-160 | marks the current view with the negation of "all entries completed" |
| `SpairApp.App.ToggleCompletion` | todomvc/spair_shared/src/lib.rs:39-45 | flips the entry with the id; a no-op on the entries when the id is absent |
| `SpairApp.App.RemoveById` | todomvc/spair_shared/src/lib.rs:47-51 | delegates to the store's `RemoveById`; editing state unchanged |
| `SpairApp.App.ClearCompleted` | todomvc/spair_shared/src/lib.rs:53-57 | delegates to the store's `ClearCompleted`; editing state unchanged |
| `SpairApp.App.SetNewDescription` | todomvc/spair_shared/src/lib.rs:59-61 | records the typed text |
| `SpairApp.App.CreateNewTodo` | todomvc/spair_shared/src/lib.rs:63-68 | appends an entry with the pending text as it is (no trim, no empty check), then clears the pending text |
| `SpairApp.App.StartEditing` | todomvc/spair_shared/src/lib.rs:70-72 | the editing id becomes the given id; the store is untouched |
| `SpairApp.App.EndEditing` | todomvc/spair_shared/src/lib.rs:74-92 | no change without an editing id; otherwise a description replaces the edited entry's in place (position and flag kept) and `None` removes the entry; either way the editing id ends as `None`; the edited id must be present when a description is given |
| `SpairApp.App.CommitEdit` | todomvc/spair_shared/src/lib.rs:316-322 | a missing field or blank text deletes the edited entry; other text is stored trimmed |
| `SpairApp.App.CancelEditing` | todomvc/spair_shared/src/lib.rs:94-96 | clears the editing id; the store is untouched |
| `YewApp.App.constructor` | todomvc/yew_non_keyed/src/main.rs:37-45 | starts from the loaded store, with an empty edit buffer and nothing being edited |
| `YewApp.App.Update` | todomvc/yew_non_keyed/src/main.rs:47-88 | per message: `Add` appends verbatim; `Edit` removes only on the empty string and otherwise stores the text untrimmed, clears the buffer and keeps the editing id; `Remove`, `SetFilter` and `ClearCompleted` delegate to the store; `ToggleAll` marks the view with "not all entries completed"; `ToggleEdit` sets the editing id and copies the description; `Toggle` flips the entry; `Focus` changes nothing. `Toggle` and `ToggleEdit` need an existing id. Untouched fields stay as they were, unique ids stay unique, and the result is always `true` |
| `Router.FilterOfHash` | todomvc/spair_shared/src/router.rs:8-12 | `Completed` iff the fragment is exactly `#completed`, `Active` iff exactly `#active`, otherwise `All` |
| `Router.Routing` | todomvc/spair_shared/src/router.rs:8-12 | a fragment that cannot be read counts as empty and routes to `All` |
| `Router.Url` | todomvc/spair_shared/src/router.rs:20-22 | the link is one of `#/`, `#/active`, `#/completed` |
| `Router.UrlInjective` | todomvc/spair_shared/src/router.rs:20-22 | distinct filters have distinct links |
| `Router.UrlRoutesToAll` | todomvc/spair_shared/src/router.rs:8-12 | every filter's own link routes to `All`, so `Active` and `Completed` do not round-trip |
| `Router.Route` | todomvc/spair_shared/src/router.rs:7-14 | routing sets the application's filter and changes nothing else |

## Left out

- `Todos::load_todos` and `save_todos` are not modelled. They are browser `LocalStorage` access with JSON through a foreign library. The constructors take the loaded store as a parameter. Every front-end method leaves out the `save_todos` call that follows it, and the abort when that save fails.
- UUID generation (`Uuid::new_v4`) is random. A new entry's id is a parameter (`freshId`), and uniqueness holds only when the caller passes a fresh one.
- `TodoShared.TodoEntry.Toggled`: `toggle_completion` updates the entry through a mutable reference. It is modelled as a value function. The callers replace the entry at the index that `FindById` returns (the model of `get_entry_by_id_mut`).
- `get_filtered_entries_mut` has no member of its own. Mutable iteration over the view is the loop in `Todos.SetCompletedForAll`, and `get_filtered_entry_mut` is `NthFitting`.
- Panics (`expect_throw`, `unwrap_throw`) on a missing id are not modelled as behaviour. They become preconditions: `EndEditing` and `CommitEdit` need the edited id, and `YewApp.Deliverable` needs the id for `Toggle` and `ToggleEdit`.
- `SpairApp.App.ToggleAll`: the original computes "all completed" when the view is rendered. The model computes it when the checkbox fires, so the two agree only when the view is current.
- Rendering is not modelled. This covers `render`/`view`, `Header`, `Main`, `Footer`, `FilterView`, `Info`, `RenderEntry`, `EditingInput` and yew's `view*`. It also covers the list diffing that `keyed.rs`/`non_keyed.rs` hand to the framework, and the mounting code of the dominator variant.
- `Msg::Focus` only moves the browser focus. It is modelled as leaving the state unchanged.
- Reading `web_sys::Location` and the framework's router plumbing are not modelled. `Router.Routing` takes the fragment, or `None` when reading it failed.
- `usize` is an unbounded `nat`. The counts and indices cannot come near its limit.
