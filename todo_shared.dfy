/** The to-do store shared by every front end: an ordered list of entries,
    the active view filter, and the queries and updates the front ends use. */
module TodoShared {

  datatype Option<T> = None | Some(value: T)

  /** Entry identifiers. The store gives every new entry a random version-4
      UUID; here an id is an abstract natural number that the caller supplies. */
  type Id = nat

  datatype TodoEntry = TodoEntry(id: Id, description: string, completed: bool)
  {
    /** `toggle_completion`: the same entry with its completion flag flipped. */
    function Toggled(): (r: TodoEntry)
      ensures r.completed != completed
      ensures r.id == id && r.description == description
    {
      this.(completed := !completed)
    }
  }

  lemma ToggledTwice(e: TodoEntry)
    ensures e.Toggled().Toggled() == e
    ensures e.Toggled() != e
  {
  }

  /** Which entries the list shows. */
  datatype Filter = All | Active | Completed
  {
    predicate Fits(e: TodoEntry)
    {
      match this
      case All => true
      case Active => !e.completed
      case Completed => e.completed
    }

    /** The URL fragment of the filter's link. */
    function AsHref(): (href: string)
      ensures |href| >= 2 && href[..2] == "#/"
    {
      match this
      case All => "#/"
      case Active => "#/active"
      case Completed => "#/completed"
    }
  }

  /** `All` shows everything; `Active` and `Completed` split the entries by
      their flag, so each entry fits exactly one of the two. */
  lemma FitsByFlag(e: TodoEntry)
    ensures All.Fits(e)
    ensures Active.Fits(e) <==> !e.completed
    ensures Completed.Fits(e) <==> e.completed
    ensures Active.Fits(e) != Completed.Fits(e)
  {
  }

  /** The three link fragments are pairwise distinct. */
  lemma HrefsDistinct(f: Filter, g: Filter)
    ensures f.AsHref() == g.AsHref() <==> f == g
  {
  }

  // ---------------------------------------------------------------------
  // Reference notions over entry lists

  /** `a` is `b` with some elements dropped, the rest kept in order. */
  ghost predicate SubseqOf<T>(a: seq<T>, b: seq<T>)
    decreases |b|
  {
    a == [] || (b != [] && ((a[0] == b[0] && SubseqOf(a[1..], b[1..])) || SubseqOf(a, b[1..])))
  }

  ghost predicate UniqueIds(es: seq<TodoEntry>)
  {
    forall i, j :: 0 <= i < j < |es| ==> es[i].id != es[j].id
  }

  ghost predicate HasId(es: seq<TodoEntry>, id: Id)
  {
    exists i :: 0 <= i < |es| && es[i].id == id
  }

  /** Two lists that differ at most in the descriptions and flags of entries,
      position by position. */
  ghost predicate SameIds(a: seq<TodoEntry>, b: seq<TodoEntry>)
  {
    |a| == |b| && forall i :: 0 <= i < |a| ==> a[i].id == b[i].id
  }

  lemma {:induction false} SubseqMembers<T>(a: seq<T>, b: seq<T>)
    requires SubseqOf(a, b)
    ensures forall x :: x in a ==> x in b
    decreases |b|
  {
    if a != [] {
      if a[0] == b[0] && SubseqOf(a[1..], b[1..]) {
        SubseqMembers(a[1..], b[1..]);
        forall x | x in a ensures x in b {
          if x != a[0] {
            var i :| 0 <= i < |a| && a[i] == x;
            assert a[1..][i - 1] == x;
            assert x in a[1..];
            var j :| 0 <= j < |b[1..]| && b[1..][j] == x;
            assert b[j + 1] == x;
          } else {
            assert b[0] in b;
          }
        }
      } else {
        SubseqMembers(a, b[1..]);
      }
    }
  }

  /** Dropping entries never creates a duplicate id. */
  lemma {:induction false} SubseqKeepsUnique(a: seq<TodoEntry>, b: seq<TodoEntry>)
    requires SubseqOf(a, b) && UniqueIds(b)
    ensures UniqueIds(a)
    decreases |b|
  {
    if a != [] {
      assert UniqueIds(b[1..]) by {
        forall i, j | 0 <= i < j < |b[1..]| ensures b[1..][i].id != b[1..][j].id {
          assert b[1..][i] == b[i + 1] && b[1..][j] == b[j + 1];
        }
      }
      if a[0] == b[0] && SubseqOf(a[1..], b[1..]) {
        SubseqKeepsUnique(a[1..], b[1..]);
        SubseqMembers(a[1..], b[1..]);
        forall i, j | 0 <= i < j < |a| ensures a[i].id != a[j].id {
          if i == 0 {
            assert a[j] == a[1..][j - 1];
            assert a[j] in b[1..];
            var k :| 0 <= k < |b[1..]| && b[1..][k] == a[j];
            assert b[k + 1] == a[j];
          } else {
            assert a[i] == a[1..][i - 1] && a[j] == a[1..][j - 1];
          }
        }
      } else {
        SubseqKeepsUnique(a, b[1..]);
      }
    }
  }

  lemma RemoveAtKeepsUnique(es: seq<TodoEntry>, k: nat)
    requires k < |es| && UniqueIds(es)
    ensures UniqueIds(es[..k] + es[k + 1..])
  {
  }

  lemma SameIdsKeepUnique(a: seq<TodoEntry>, b: seq<TodoEntry>)
    requires SameIds(a, b) && UniqueIds(b)
    ensures UniqueIds(a)
  {
  }

  // ---------------------------------------------------------------------
  // Filtering, counting, searching

  /** The entries that fit `f`, in their original order
      (`get_filtered_entries`; with `Active` it is also what `clear_completed` keeps). */
  function FilterBy(es: seq<TodoEntry>, f: Filter): (r: seq<TodoEntry>)
    ensures |r| <= |es|
    ensures forall i :: 0 <= i < |r| ==> f.Fits(r[i])
  {
    if es == [] then []
    else if f.Fits(es[0]) then [es[0]] + FilterBy(es[1..], f)
    else FilterBy(es[1..], f)
  }

  /** The view holds exactly the entries that fit. */
  lemma {:induction false} FilterByMembers(es: seq<TodoEntry>, f: Filter)
    ensures forall x :: x in FilterBy(es, f) <==> x in es && f.Fits(x)
  {
    if es != [] {
      FilterByMembers(es[1..], f);
      assert forall x :: x in es <==> x == es[0] || x in es[1..];
    }
  }

  /** The filtered view keeps the original relative order. */
  lemma {:induction false} FilterBySubseq(es: seq<TodoEntry>, f: Filter)
    ensures SubseqOf(FilterBy(es, f), es)
  {
    if es != [] {
      FilterBySubseq(es[1..], f);
      var rest := FilterBy(es[1..], f);
      if !f.Fits(es[0]) {
        assert FilterBy(es, f) == rest;
      } else {
        assert FilterBy(es, f)[1..] == rest;
      }
    }
  }

  /** Filtering distributes over concatenation. */
  lemma {:induction false} FilterByConcat(a: seq<TodoEntry>, b: seq<TodoEntry>, f: Filter)
    ensures FilterBy(a + b, f) == FilterBy(a, f) + FilterBy(b, f)
  {
    if a == [] {
      assert a + b == b;
    } else {
      var ab := a + b;
      assert ab[0] == a[0] && ab[1..] == a[1..] + b;
      FilterByConcat(a[1..], b, f);
      if f.Fits(a[0]) {
        assert FilterBy(ab, f) == [a[0]] + FilterBy(ab[1..], f);
      } else {
        assert FilterBy(ab, f) == FilterBy(ab[1..], f);
      }
    }
  }

  /** Filtering twice by the same filter changes nothing more. */
  lemma {:induction false} FilterByIdempotent(es: seq<TodoEntry>, f: Filter)
    ensures FilterBy(FilterBy(es, f), f) == FilterBy(es, f)
  {
    if es != [] {
      FilterByIdempotent(es[1..], f);
      if f.Fits(es[0]) {
        var r := FilterBy(es, f);
        assert r[0] == es[0] && r[1..] == FilterBy(es[1..], f);
      }
    }
  }

  /** `completed_count`: how many entries are completed. */
  function CountCompleted(es: seq<TodoEntry>): (n: nat)
    ensures n <= |es|
  {
    if es == [] then 0
    else (if es[0].completed then 1 else 0) + CountCompleted(es[1..])
  }

  /** The completed count is the size of the `Completed` view, and together
      with the `Active` view it accounts for every entry. */
  lemma {:induction false} CountCompletedViews(es: seq<TodoEntry>)
    ensures CountCompleted(es) == |FilterBy(es, Completed)|
    ensures CountCompleted(es) + |FilterBy(es, Active)| == |es|
  {
    if es != [] {
      CountCompletedViews(es[1..]);
    }
  }

  /** Whether some entry is not completed (the `any(!completed)` of `is_all_completed`). */
  function AnyActive(es: seq<TodoEntry>): (b: bool)
    ensures b <==> exists i :: 0 <= i < |es| && !es[i].completed
  {
    if es == [] then false
    else !es[0].completed || AnyActive(es[1..])
  }

  /** "All completed" holds exactly when every entry is completed, when the
      completed count equals the entry count, and when the `Active` view is
      empty; on an empty list it holds vacuously. */
  lemma AllCompletedIff(es: seq<TodoEntry>)
    ensures !AnyActive(es) <==> forall i :: 0 <= i < |es| ==> es[i].completed
    ensures !AnyActive(es) <==> CountCompleted(es) == |es|
    ensures !AnyActive(es) <==> FilterBy(es, Active) == []
    ensures es == [] ==> !AnyActive(es)
  {
  }

  /** `get_entry_by_id_mut`: the position of the first entry with `id`. */
  function FindById(es: seq<TodoEntry>, id: Id): (r: Option<nat>)
    ensures r.None? <==> !HasId(es, id)
    ensures r.Some? ==> r.value < |es| && es[r.value].id == id
    ensures r.Some? ==> forall j :: 0 <= j < r.value ==> es[j].id != id
  {
    if es == [] then None
    else if es[0].id == id then Some(0)
    else
      match FindById(es[1..], id)
      case None =>
        assert forall i :: 1 <= i < |es| ==> es[i] == es[1..][i - 1];
        None
      case Some(k) => Some(k + 1)
  }

  /** In a list without duplicate ids, the entry found is the only one with that id. */
  lemma FindByIdUnique(es: seq<TodoEntry>, id: Id)
    requires UniqueIds(es) && HasId(es, id)
    ensures forall j :: 0 <= j < |es| && es[j].id == id ==> j == FindById(es, id).value
  {
  }

  /** The position of the `n`-th (from 0) entry that fits `f`: it fits, and
      exactly `n` fitting entries come before it. `None` when the view has no
      `n`-th entry. (`get_filtered_entry_mut`, and the index search of
      `remove_by_index`.) */
  function NthFitting(es: seq<TodoEntry>, f: Filter, n: nat): (r: Option<nat>)
    ensures r.None? <==> n >= |FilterBy(es, f)|
    ensures r.Some? ==> r.value < |es| && f.Fits(es[r.value])
    ensures r.Some? ==> |FilterBy(es[..r.value], f)| == n
  {
    if es == [] then None
    else if f.Fits(es[0]) && n == 0 then
      assert es[..0] == [];
      Some(0)
    else
      var m: nat := if f.Fits(es[0]) then n - 1 else n;
      match NthFitting(es[1..], f, m)
      case None => None
      case Some(k) =>
        PrefixStep(es, f, k);
        Some(k + 1)
  }

  /** One more entry in front of a prefix adds it to the prefix's view when it fits. */
  lemma PrefixStep(es: seq<TodoEntry>, f: Filter, k: nat)
    requires k < |es| - 1
    ensures |FilterBy(es[..k + 1], f)| == |FilterBy(es[1..][..k], f)| + (if f.Fits(es[0]) then 1 else 0)
  {
    var p := es[..k + 1];
    assert p[0] == es[0] && p[1..] == es[1..][..k];
  }

  /** A fitting entry with `n` fitting entries before it (such as the one
      `NthFitting` finds) is the `n`-th entry of the view, and removing it from
      the list removes exactly that element from the view. */
  lemma RemoveNthOfView(es: seq<TodoEntry>, f: Filter, n: nat, k: nat)
    requires k < |es| && f.Fits(es[k]) && |FilterBy(es[..k], f)| == n
    ensures var view := FilterBy(es, f);
      n < |view| && es[k] == view[n] &&
      FilterBy(es[..k] + es[k + 1..], f) == view[..n] + view[n + 1..]
  {
    var before, e, after := es[..k], es[k], es[k + 1..];
    assert es == before + [e] + after;
    ViewAroundFitting(before, e, after, f);
    FilterByConcat(before, after, f);
    var fb, fa := FilterBy(before, f), FilterBy(after, f);
    var view := fb + [e] + fa;
    assert view[n] == e;
    assert view[..n] == fb;
    assert view[n + 1..] == fa;
  }

  /** A fitting entry between two stretches of the list appears in the view
      between their two views. */
  lemma ViewAroundFitting(before: seq<TodoEntry>, e: TodoEntry, after: seq<TodoEntry>, f: Filter)
    requires f.Fits(e)
    ensures FilterBy(before + [e] + after, f) == FilterBy(before, f) + [e] + FilterBy(after, f)
  {
    assert FilterBy([e], f) == [e] by {
      assert [e][1..] == [];
    }
    FilterByConcat(before + [e], after, f);
    FilterByConcat(before, [e], f);
  }

  // ---------------------------------------------------------------------
  // Whole-list updates

  /** `retain(|e| e.id != id)`: every entry except those with `id`, in order. */
  function RemoveId(es: seq<TodoEntry>, id: Id): (r: seq<TodoEntry>)
    ensures |r| <= |es|
    ensures forall x :: x in r <==> x in es && x.id != id
  {
    if es == [] then []
    else if es[0].id != id then [es[0]] + RemoveId(es[1..], id)
    else RemoveId(es[1..], id)
  }

  lemma {:induction false} RemoveIdSubseq(es: seq<TodoEntry>, id: Id)
    ensures SubseqOf(RemoveId(es, id), es)
  {
    if es != [] {
      RemoveIdSubseq(es[1..], id);
      if es[0].id != id {
        assert RemoveId(es, id)[1..] == RemoveId(es[1..], id);
      }
    }
  }

  /** Removing an id that is not there changes nothing; hence removing twice
      is the same as removing once. */
  lemma {:induction false} RemoveIdAbsent(es: seq<TodoEntry>, id: Id)
    requires !HasId(es, id)
    ensures RemoveId(es, id) == es
  {
    if es != [] {
      assert !HasId(es[1..], id) by {
        forall i | 0 <= i < |es[1..]| ensures es[1..][i].id != id {
          assert es[1..][i] == es[i + 1];
        }
      }
      RemoveIdAbsent(es[1..], id);
      assert es[0].id != id;
      assert es == [es[0]] + es[1..];
    }
  }

  lemma RemoveIdIdempotent(es: seq<TodoEntry>, id: Id)
    ensures RemoveId(RemoveId(es, id), id) == RemoveId(es, id)
  {
  }

  /** In a list without duplicate ids, removing a present id removes exactly one entry. */
  lemma {:induction false} RemoveIdCount(es: seq<TodoEntry>, id: Id)
    requires UniqueIds(es) && HasId(es, id)
    ensures |RemoveId(es, id)| == |es| - 1
  {
    assert UniqueIds(es[1..]) by {
      forall i, j | 0 <= i < j < |es[1..]| ensures es[1..][i].id != es[1..][j].id {
        assert es[1..][i] == es[i + 1] && es[1..][j] == es[j + 1];
      }
    }
    if es[0].id == id {
      assert !HasId(es[1..], id) by {
        forall i | 0 <= i < |es[1..]| ensures es[1..][i].id != id {
          assert es[1..][i] == es[i + 1];
        }
      }
      RemoveIdAbsent(es[1..], id);
    } else {
      var i :| 0 <= i < |es| && es[i].id == id;
      assert es[1..][i - 1] == es[i];
      RemoveIdCount(es[1..], id);
    }
  }

  /** Adding an entry with a fresh id and then removing that id restores the list. */
  lemma {:induction false} RemoveNewEntry(es: seq<TodoEntry>, id: Id, description: string)
    requires !HasId(es, id)
    ensures RemoveId(es + [TodoEntry(id, description, false)], id) == es
  {
    var e := TodoEntry(id, description, false);
    if es == [] {
      assert [e][1..] == [];
    } else {
      assert (es + [e])[1..] == es[1..] + [e];
      assert !HasId(es[1..], id) by {
        forall i | 0 <= i < |es[1..]| ensures es[1..][i].id != id {
          assert es[1..][i] == es[i + 1];
        }
      }
      RemoveNewEntry(es[1..], id, description);
      assert es[0].id != id;
      assert es == [es[0]] + es[1..];
    }
  }

  /** What `new_entry` does to the views: the new entry is active, so it
      joins the `Active` view at its end, leaves the `Completed` view and the
      completed count as they were, and makes "all completed" false. */
  lemma NewEntryViews(es: seq<TodoEntry>, id: Id, description: string)
    ensures var e := TodoEntry(id, description, false);
      FilterBy(es + [e], Active) == FilterBy(es, Active) + [e] &&
      FilterBy(es + [e], Completed) == FilterBy(es, Completed) &&
      CountCompleted(es + [e]) == CountCompleted(es) &&
      AnyActive(es + [e])
  {
    var e := TodoEntry(id, description, false);
    FilterByConcat(es, [e], Active);
    FilterByConcat(es, [e], Completed);
    assert [e][1..] == [];
    CountCompletedViews(es + [e]);
    CountCompletedViews(es);
    assert (es + [e])[|es|] == e;
  }

  /** After `clear_completed` nothing is completed, exactly the completed
      entries are gone, and clearing again changes nothing. */
  lemma ClearCompletedEffects(es: seq<TodoEntry>)
    ensures var r := FilterBy(es, Active);
      CountCompleted(r) == 0 && |r| == |es| - CountCompleted(es) && FilterBy(r, Active) == r
  {
  }

  /** `set_completed_for_all`: every entry that fits `f` gets flag `c`; the
      others, and all ids and descriptions, stay as they were. */
  function MarkFiltered(es: seq<TodoEntry>, f: Filter, c: bool): (r: seq<TodoEntry>)
    ensures SameIds(r, es)
    ensures forall i :: 0 <= i < |es| ==> r[i].description == es[i].description
    ensures forall i :: 0 <= i < |es| ==> r[i].completed == (if f.Fits(es[i]) then c else es[i].completed)
  {
    seq(|es|, i requires 0 <= i < |es| => if f.Fits(es[i]) then es[i].(completed := c) else es[i])
  }

  /** Marking done through the `All` or `Active` view completes every entry. */
  lemma MarkDoneCompletesAll(es: seq<TodoEntry>, f: Filter)
    requires f != Completed
    ensures !AnyActive(MarkFiltered(es, f, true))
  {
  }

  /** Marking not done through the `All` view leaves nothing completed. */
  lemma MarkUndoneClearsAll(es: seq<TodoEntry>)
    ensures CountCompleted(MarkFiltered(es, All, false)) == 0
  {
    NoneCompleted(MarkFiltered(es, All, false));
  }

  lemma {:induction false} NoneCompleted(es: seq<TodoEntry>)
    requires forall i :: 0 <= i < |es| ==> !es[i].completed
    ensures CountCompleted(es) == 0
  {
    if es != [] {
      assert forall i :: 0 <= i < |es[1..]| ==> es[1..][i] == es[i + 1];
      NoneCompleted(es[1..]);
    }
  }

  /** Through the `Completed` view, marking done changes nothing (no entry it
      shows is active); through the `Active` view, marking not done changes nothing. */
  lemma MarkWithinOwnViewNoop(es: seq<TodoEntry>)
    ensures MarkFiltered(es, Completed, true) == es
    ensures MarkFiltered(es, Active, false) == es
  {
  }

  /** The toggle-all button marks the current view with `!is_all_completed()`,
      a flag computed over ALL entries. Under `Active` with everything done,
      it therefore changes nothing. */
  lemma ToggleAllActiveViewAllDone(es: seq<TodoEntry>)
    requires !AnyActive(es)
    ensures MarkFiltered(es, Active, AnyActive(es)) == es
  {
  }

  /** Under `All`, toggle-all makes every entry's flag `!is_all_completed()`. */
  lemma ToggleAllAllView(es: seq<TodoEntry>)
    ensures var r := MarkFiltered(es, All, AnyActive(es));
      (AnyActive(es) ==> !AnyActive(r)) && (!AnyActive(es) ==> CountCompleted(r) == 0)
  {
    if !AnyActive(es) {
      MarkUndoneClearsAll(es);
    }
  }

  /** The first entry with `id` flipped; no change when the id is absent. */
  function ToggleById(es: seq<TodoEntry>, id: Id): (r: seq<TodoEntry>)
    ensures SameIds(r, es)
    ensures forall i :: 0 <= i < |es| ==> r[i].description == es[i].description
    ensures forall i :: 0 <= i < |es| ==>
      r[i].completed == (if FindById(es, id) == Some(i) then !es[i].completed else es[i].completed)
  {
    match FindById(es, id)
    case None => es
    case Some(k) => es[k := es[k].Toggled()]
  }

  /** Toggling the same id twice restores the list. */
  lemma ToggleByIdTwice(es: seq<TodoEntry>, id: Id)
    ensures ToggleById(ToggleById(es, id), id) == es
  {
  }

  /** The first entry with `id` gets description `d`; no change when the id is absent. */
  function SetDescription(es: seq<TodoEntry>, id: Id, d: string): (r: seq<TodoEntry>)
    ensures SameIds(r, es)
    ensures forall i :: 0 <= i < |es| ==> r[i].completed == es[i].completed
    ensures forall i :: 0 <= i < |es| ==>
      r[i].description == (if FindById(es, id) == Some(i) then d else es[i].description)
  {
    match FindById(es, id)
    case None => es
    case Some(k) => es[k := es[k].(description := d)]
  }

  // ---------------------------------------------------------------------
  // The store

  /** `Todos`: the entry list and the active filter, updated in place. */
  class Todos {
    var entries: seq<TodoEntry>
    var filter: Filter

    /** A store holding the given state, as loaded from storage (or the
        empty list with `All` when nothing could be loaded). */
    constructor (entries: seq<TodoEntry>, filter: Filter)
      ensures this.entries == entries && this.filter == filter
    {
      this.entries := entries;
      this.filter := filter;
    }

    /** `new_entry`: append an entry with the given description (taken as is)
        and the caller-supplied id `freshId`, not completed. */
    method NewEntry(description: string, freshId: Id)
      modifies this
      ensures entries == old(entries) + [TodoEntry(freshId, description, false)]
      ensures filter == old(filter)
      ensures UniqueIds(old(entries)) && !HasId(old(entries), freshId) ==> UniqueIds(entries)
    {
      entries := entries + [TodoEntry(freshId, description, false)];
    }

    /** `entry_count`: the number of entries, whatever the filter. */
    function EntryCount(): (n: nat)
      reads this
      ensures n == |FilterBy(entries, Active)| + |FilterBy(entries, Completed)|
    {
      CountCompletedViews(entries);
      |entries|
    }

    /** `completed_count`: the size of the `Completed` view; it never exceeds
        `EntryCount`, so "items left" cannot underflow. */
    function CompletedCount(): (n: nat)
      reads this
      ensures n == |FilterBy(entries, Completed)|
      ensures n <= EntryCount()
    {
      CountCompletedViews(entries);
      CountCompleted(entries)
    }

    /** `is_all_completed`: no entry is active. */
    function IsAllCompleted(): (b: bool)
      reads this
      ensures b <==> forall i :: 0 <= i < |entries| ==> entries[i].completed
      ensures b <==> CompletedCount() == EntryCount()
    {
      AllCompletedIff(entries);
      !AnyActive(entries)
    }

    /** `get_filtered_entries`: the entries that fit the active filter, in their original order. */
    function GetFilteredEntries(): (view: seq<TodoEntry>)
      reads this
      ensures SubseqOf(view, entries)
      ensures forall x :: x in view <==> x in entries && filter.Fits(x)
    {
      FilterBySubseq(entries, filter);
      FilterByMembers(entries, filter);
      FilterBy(entries, filter)
    }

    /** `clear_completed`: keep exactly the active entries, in order. */
    method ClearCompleted()
      modifies this
      ensures entries == FilterBy(old(entries), Active)
      ensures filter == old(filter)
      ensures UniqueIds(old(entries)) ==> UniqueIds(entries)
    {
      FilterBySubseq(entries, Active);
      if UniqueIds(entries) {
        SubseqKeepsUnique(FilterBy(entries, Active), entries);
      }
      entries := FilterBy(entries, Active);
    }

    /** `remove_by_id`: drop every entry with `id`. */
    method RemoveById(id: Id)
      modifies this
      ensures entries == RemoveId(old(entries), id)
      ensures filter == old(filter)
      ensures UniqueIds(old(entries)) ==> UniqueIds(entries)
    {
      RemoveIdSubseq(entries, id);
      if UniqueIds(entries) {
        SubseqKeepsUnique(RemoveId(entries, id), entries);
      }
      entries := RemoveId(entries, id);
    }

    /** `remove_by_index`: drop the `index`-th entry of the current view, or
        do nothing when the view is shorter. */
    method RemoveByIndex(index: nat)
      modifies this
      ensures filter == old(filter)
      ensures index >= |FilterBy(old(entries), filter)| ==> entries == old(entries)
      ensures index < |FilterBy(old(entries), filter)| ==>
        var k := NthFitting(old(entries), filter, index).value;
        entries == old(entries)[..k] + old(entries)[k + 1..] &&
        FilterBy(entries, filter) == FilterBy(old(entries), filter)[..index] + FilterBy(old(entries), filter)[index + 1..]
      ensures UniqueIds(old(entries)) ==> UniqueIds(entries)
    {
      var found := NthFitting(entries, filter, index);
      if found.None? {
        return;
      }
      var actualIndex := found.value;
      RemoveNthOfView(entries, filter, index, actualIndex);
      if UniqueIds(entries) {
        RemoveAtKeepsUnique(entries, actualIndex);
      }
      entries := entries[..actualIndex] + entries[actualIndex + 1..];
    }

    /** `set_completed_for_all`: one pass over the entries, giving flag `c`
        to each entry that fits the filter. */
    method SetCompletedForAll(c: bool)
      modifies this
      ensures entries == MarkFiltered(old(entries), old(filter), c)
      ensures filter == old(filter)
      ensures UniqueIds(old(entries)) ==> UniqueIds(entries)
    {
      ghost var target := MarkFiltered(entries, filter, c);
      var i := 0;
      while i < |entries|
        invariant |entries| == |target| && 0 <= i <= |entries|
        invariant filter == old(filter)
        invariant forall j :: 0 <= j < i ==> entries[j] == target[j]
        invariant forall j :: i <= j < |entries| ==> entries[j] == old(entries)[j]
      {
        if filter.Fits(entries[i]) {
          entries := entries[i := entries[i].(completed := c)];
        }
        i := i + 1;
      }
      if UniqueIds(old(entries)) {
        SameIdsKeepUnique(entries, old(entries));
      }
    }
  }
}
