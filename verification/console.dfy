/** The page routing and session bookkeeping of `backend-ai-console`: the
    constructor defaults, the page-name normalisation and menu selection run
    when `_page` changes, `_loadPageElement`'s default page, `refreshPage`'s
    connection flags and `logout`'s clearing of the console's own
    localStorage keys. */
module Console {
  import opened Js
  import opened Text

  /** The console's reactive properties that the routing logic reads and writes. */
  datatype Console = Console(
    menuTitle: string,
    userId: string,
    apiEndpoint: string,
    isConnected: bool,
    isAdmin: bool,
    page: string,
    sidebarSelected: nat)

  const LoginRequired := "LOGIN REQUIRED"

  /** The console as its constructor leaves it (the sidebar starts on entry 0). */
  function Initial(): (c: Console)
    ensures c.menuTitle == LoginRequired && c.userId == "DISCONNECTED"
    ensures c.apiEndpoint == "CLICK TO CONNECT"
    ensures !c.isConnected && !c.isAdmin
    ensures c.page == "" && c.sidebarSelected == 0
  {
    Console(LoginRequired, "DISCONNECTED", "CLICK TO CONNECT", false, false, "", 0)
  }

  /** The page names `updated` accepts without normalising. */
  const DirectPages: seq<string> := ["summary", "job", "agent", "credential", "data"]

  /** `updated`'s page normalisation: a direct page is kept, any other value
      (a Windows-style path, for one) becomes its last piece after splitting on
      runs of '/'. */
  function NormalisePage(page: string): (view: string)
    ensures page in DirectPages ==> view == page
    ensures page !in DirectPages ==> view == AfterLast(page, '/')
    ensures '/' !in view
  {
    if page in DirectPages then page
    else
      LastRunPiece(page, '/');
      Last(SplitRuns(page, '/'))
  }

  /** Normalising a normalised page changes nothing, so the re-assignment of
      `_page` inside `updated` reaches a fixed point at once. */
  lemma NormaliseIdempotent(page: string)
    ensures NormalisePage(NormalisePage(page)) == NormalisePage(page)
  {
    var view := NormalisePage(page);
    if view !in DirectPages {
      SplitRunsShape(view, '/');
      assert SplitRuns(view, '/') == [view];
    }
  }

  /** The toolbar title and sidebar entry selected for a page. */
  datatype Menu = Menu(title: string, index: nat)

  /** The pages the menu switch recognises, each with its title and entry. */
  const KnownPages: seq<string> := ["summary", "job", "data", "agent", "credential", "environment"]

  /** `updated`'s switch on the normalised page. */
  function MenuFor(view: string): (m: Menu)
    ensures m.index in {0, 1, 3, 6, 7, 8}
    ensures m.title == LoginRequired <==> view !in KnownPages
    ensures view !in KnownPages ==> m.index == 0
  {
    match view
    case "summary" => Menu("Summary", 0)
    case "job" => Menu("Sessions", 1)
    case "data" => Menu("Data", 3)
    case "agent" => Menu("Computation Resources", 6)
    case "credential" => Menu("Credentials & Policies", 7)
    case "environment" => Menu("Environments", 8)
    case _ => Menu(LoginRequired, 0)
  }

  /** The page a sidebar entry leads to: the inverse of `MenuFor` on known pages. */
  function PageAt(index: nat): (page: Option<string>)
    ensures page.Some? ==> page.value in KnownPages
  {
    match index
    case 0 => Some("summary")
    case 1 => Some("job")
    case 3 => Some("data")
    case 6 => Some("agent")
    case 7 => Some("credential")
    case 8 => Some("environment")
    case _ => None
  }

  /** The switch's table: each known page's toolbar title and sidebar entry. */
  lemma MenuTable()
    ensures MenuFor("summary") == Menu("Summary", 0)
    ensures MenuFor("job") == Menu("Sessions", 1)
    ensures MenuFor("data") == Menu("Data", 3)
    ensures MenuFor("agent") == Menu("Computation Resources", 6)
    ensures MenuFor("credential") == Menu("Credentials & Policies", 7)
    ensures MenuFor("environment") == Menu("Environments", 8)
  {
  }

  /** Every known page selects its own sidebar entry, so distinct known pages
      select distinct entries. */
  lemma MenuIndexIdentifiesPage(view: string)
    requires view in KnownPages
    ensures PageAt(MenuFor(view).index) == Some(view)
  {
  }

  /** Every entry the switch can select leads back to a page that selects it. */
  lemma PageAtInvertsMenu(index: nat)
    requires PageAt(index).Some?
    ensures MenuFor(PageAt(index).value).index == index
  {
  }

  /** `updated(changedProps)`: when `_page` changed, normalise it and select
      the matching title and sidebar entry; otherwise nothing changes. */
  function Updated(c: Console, pageChanged: bool): (c': Console)
    ensures !pageChanged ==> c' == c
    ensures pageChanged ==> c'.page == NormalisePage(c.page)
    ensures pageChanged ==> Menu(c'.menuTitle, c'.sidebarSelected) == MenuFor(c'.page)
    ensures c'.userId == c.userId && c'.isConnected == c.isConnected && c'.isAdmin == c.isAdmin
  {
    if !pageChanged then c
    else
      var view := NormalisePage(c.page);
      var m := MenuFor(view);
      c.(page := view, menuTitle := m.title, sidebarSelected := m.index)
  }

  /** A second `updated` pass after the first changes nothing. */
  lemma UpdatedSettles(c: Console)
    ensures Updated(Updated(c, true), true) == Updated(c, true)
  {
    NormaliseIdempotent(c.page);
  }

  /** `_loadPageElement`: '' and 'index.html' fall back to the summary page. */
  function LoadPageElement(c: Console): (c': Console)
    ensures c.page == "" || c.page == "index.html" ==> c'.page == "summary"
    ensures c.page != "" && c.page != "index.html" ==> c'.page == c.page
    ensures c' == c.(page := c'.page)
  {
    if c.page == "index.html" || c.page == "" then c.(page := "summary") else c
  }

  /** Opening the console at its root or at 'index.html' lands on the summary
      page: once `updated` runs, the toolbar shows 'Summary' and the sidebar
      selects entry 0. */
  lemma DefaultPageSelectsSummary(c: Console)
    requires c.page == "" || c.page == "index.html"
    ensures var c' := Updated(LoadPageElement(c), true);
            c'.page == "summary" && c'.menuTitle == "Summary" && c'.sidebarSelected == 0
  {
  }

  /** The connected client, as `window.backendaiclient`. `isAdmin` is absent
      when the client does not report it. */
  datatype Client = Client(isAdmin: Option<bool>, email: string, endpoint: string)

  /** The outcome of `refreshPage`: the updated console, and whether the
      user-info refresh threw because no client was present. */
  datatype Refresh = Refresh(console: Console, threw: bool)

  /** `refreshPage`: marks the console connected, sets the admin flag from the
      client, and copies the user's e-mail and endpoint into the toolbar. With
      no client the last step dereferences null and throws, after both flags
      were already written. */
  function RefreshPage(c: Console, client: Option<Client>): (r: Refresh)
    ensures r.console.isConnected
    ensures r.console.isAdmin <==> client.Some? && client.value.isAdmin == Some(true)
    ensures r.threw <==> client.None?
    ensures client.Some? ==> (r.console.userId == client.value.email && r.console.apiEndpoint == client.value.endpoint)
    ensures client.None? ==> r.console.userId == c.userId && r.console.apiEndpoint == c.apiEndpoint
    ensures r.console.page == c.page && r.console.menuTitle == c.menuTitle
    ensures r.console.sidebarSelected == c.sidebarSelected
  {
    var admin := client.Some? && client.value.isAdmin == Some(true);
    var flagged := c.(isConnected := true, isAdmin := admin);
    match client
    case None => Refresh(flagged, true)
    case Some(cl) => Refresh(flagged.(userId := cl.email, apiEndpoint := cl.endpoint), false)
  }

  /** Refreshing the connection and routing a page change touch disjoint
      fields, so they can happen in either order with the same result. */
  lemma RefreshCommutesWithUpdated(c: Console, client: Option<Client>, pageChanged: bool)
    ensures RefreshPage(Updated(c, pageChanged), client).console == Updated(RefreshPage(c, client).console, pageChanged)
    ensures RefreshPage(Updated(c, pageChanged), client).threw == RefreshPage(c, client).threw
  {
  }

  /** The prefix of the console's own localStorage keys; `logout` tests it
      with the anchored pattern /^(backendaiconsole\.)/, whose '.' is escaped. */
  const StoragePrefix := "backendaiconsole."

  /** `logout`'s storage pass: walks the keys of localStorage and removes each
      key that starts with the console's prefix. */
  method Logout(storage: map<string, string>) returns (kept: map<string, string>)
    ensures forall k :: k in kept <==> k in storage && !StartsWith(k, StoragePrefix)
    ensures forall k :: k in kept ==> kept[k] == storage[k]
  {
    kept := storage;
    var pending := storage.Keys;
    while pending != {}
      invariant pending <= storage.Keys
      invariant forall k :: k in kept <==>
                  k in storage && (k in pending || !StartsWith(k, StoragePrefix))
      invariant forall k :: k in kept ==> kept[k] == storage[k]
      decreases pending
    {
      var key :| key in pending;
      if StartsWith(key, StoragePrefix) {
        kept := kept - {key};
      }
      pending := pending - {key};
    }
  }
}
