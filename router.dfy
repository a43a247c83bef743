/** The spair router: the URL fragment chooses the filter, and each filter's
    link carries a fragment. */
module Router {
  import opened TodoShared
  import SpairApp

  /** The match in `routing`: only the exact fragments `#completed` and
      `#active` select a view; everything else shows all entries. */
  function FilterOfHash(hash: string): (f: Filter)
    ensures f == Completed <==> hash == "#completed"
    ensures f == Active <==> hash == "#active"
  {
    if hash == "#completed" then Completed
    else if hash == "#active" then Active
    else All
  }

  /** The fragment the router reads; `None` when reading it fails, which
      counts as the empty fragment. */
  function Routing(hash: Option<string>): (f: Filter)
    ensures hash.None? ==> f == All
    ensures hash.Some? ==> f == FilterOfHash(hash.value)
  {
    FilterOfHash(match hash case None => "" case Some(h) => h)
  }

  /** `Routes::url`: the link fragment of a filter. */
  function Url(f: Filter): (u: string)
    ensures u == "#/" || u == "#/active" || u == "#/completed"
  {
    f.AsHref()
  }

  /** Distinct filters have distinct links. */
  lemma UrlInjective(f: Filter, g: Filter)
    ensures Url(f) == Url(g) <==> f == g
  {
  }

  /** The links and the router disagree on spelling: every link fragment
      contains a slash that the router's patterns lack, so following any
      filter's link selects `All`. */
  lemma UrlRoutesToAll(f: Filter)
    ensures Routing(Some(Url(f))) == All
    ensures f != All ==> Routing(Some(Url(f))) != f
  {
  }

  /** Routing hands its filter to the application's `set_filter`. */
  method Route(app: SpairApp.App, hash: Option<string>)
    modifies app.data
    ensures app.data.filter == Routing(hash) && app.data.entries == old(app.data.entries)
    ensures app.editingId == old(app.editingId) && app.newDescription == old(app.newDescription)
  {
    app.SetFilter(Routing(hash));
  }
}
