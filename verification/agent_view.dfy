/** The tab state of `backend-ai-agent-view`: which tab content is displayed,
    which tab is current, whether the view is active, and which agent lists
    the render binds active. The storage-proxy tab and its content exist only
    while the client supports storage proxies. Tab display is a map from each
    present tab content to whether it is shown. */
module AgentView {
  import opened Js

  /** The view's tabs, by the title of each tab and the id of its content. */
  datatype Tab = RunningLists | TerminatedLists | StorageProxyLists | ScalingGroupLists {
    function Title(): string {
      match this
      case RunningLists => "running-lists"
      case TerminatedLists => "terminated-lists"
      case StorageProxyLists => "storage-proxy-lists"
      case ScalingGroupLists => "scaling-group-lists"
    }
  }

  datatype Status = Active | Inactive

  /** The `active` flags `_viewStateChanged` writes on the running, terminated
      and resource-group lists. */
  datatype ListFlags = ListFlags(running: bool, terminated: bool, scalingGroups: bool)

  datatype View = View(
    status: Status,
    tab: Tab,
    enableStorageProxy: bool,
    display: map<Tab, bool>,
    lists: ListFlags)

  /** The tab contents the render produces. */
  function Contents(enableStorageProxy: bool): (cs: set<Tab>)
    ensures StorageProxyLists in cs <==> enableStorageProxy
    ensures RunningLists in cs && TerminatedLists in cs && ScalingGroupLists in cs
  {
    if enableStorageProxy then {RunningLists, TerminatedLists, StorageProxyLists, ScalingGroupLists}
    else {RunningLists, TerminatedLists, ScalingGroupLists}
  }

  /** The display map covers exactly the rendered contents, and a shown
      content is the current tab's. */
  predicate Coherent(v: View) {
    && v.display.Keys == Contents(v.enableStorageProxy)
    && forall t :: t in v.display && v.display[t] ==> t == v.tab
  }

  /** The view as first rendered: inactive, on the running list, without the
      storage-proxy tab, and showing only the running list's content. */
  function Initial(): (v: View)
    ensures v.status == Inactive && v.tab == RunningLists && !v.enableStorageProxy
    ensures Coherent(v)
    ensures v.display[RunningLists] && !v.display[TerminatedLists] && !v.display[ScalingGroupLists]
  {
    View(Inactive, RunningLists, false,
         map[RunningLists := true, TerminatedLists := false, ScalingGroupLists := false],
         ListFlags(false, false, false))
  }

  /** Every rendered content hidden. */
  function HideAll(display: map<Tab, bool>): (d: map<Tab, bool>)
    ensures d.Keys == display.Keys
    ensures forall t :: t in d ==> !d[t]
  {
    map t | t in display :: false
  }

  /** `_showTab(tab)`: hides every content, then shows the content whose id is
      the tab's title and makes that tab current. When no such content is
      rendered (the storage-proxy tab without storage proxies) the lookup
      throws after everything was hidden and before `_tab` is written. */
  function ShowTab(v: View, t: Tab): (v': View)
    ensures v'.display.Keys == v.display.Keys
    ensures t in v.display ==> v'.tab == t && v'.display[t]
    ensures t !in v.display ==> v'.tab == v.tab
    ensures forall u :: u in v'.display && u != t ==> !v'.display[u]
    ensures v'.status == v.status && v'.enableStorageProxy == v.enableStorageProxy && v'.lists == v.lists
  {
    var hidden := HideAll(v.display);
    if t in v.display then v.(display := hidden[t := true], tab := t)
    else v.(display := hidden)
  }

  /** Showing a tab keeps the view coherent: exactly the chosen content is
      displayed afterwards, and it is the current tab's. */
  lemma ShowTabCoherent(v: View, t: Tab)
    requires Coherent(v)
    ensures Coherent(ShowTab(v, t))
  {
  }

  /** At most one content is displayed in a coherent view. */
  lemma AtMostOneDisplayed(v: View, t: Tab, u: Tab)
    requires Coherent(v)
    requires t in v.display && v.display[t] && u in v.display && v.display[u]
    ensures t == u
  {
  }

  /** Showing a tab twice is showing it once. */
  lemma ShowTabIdempotent(v: View, t: Tab)
    ensures ShowTab(ShowTab(v, t), t) == ShowTab(v, t)
  {
    var once := ShowTab(v, t);
    assert HideAll(once.display) == HideAll(v.display);
  }

  /** `_viewStateChanged(active)`: an inactive view deactivates all three lists;
      an active one activates the running and terminated lists and keeps the
      resource-group list inactive. The status follows. */
  function ViewStateChanged(v: View, active: bool): (v': View)
    ensures v'.status == (if active then Active else Inactive)
    ensures !active ==> !v'.lists.running && !v'.lists.terminated && !v'.lists.scalingGroups
    ensures active ==> v'.lists.running && v'.lists.terminated && !v'.lists.scalingGroups
    ensures v'.tab == v.tab && v'.display == v.display && v'.enableStorageProxy == v.enableStorageProxy
  {
    if !active then v.(lists := ListFlags(false, false, false), status := Inactive)
    else v.(lists := ListFlags(true, true, false), status := Active)
  }

  /** The resource-group list is never left active by a view-state change. */
  lemma ScalingGroupsNeverActivated(v: View, active: bool)
    ensures !ViewStateChanged(v, active).lists.scalingGroups
  {
  }

  /** The `?active` binding of each list in the render: the view is active and
      its tab is current; the storage-proxy list is rendered, and so bound,
      only when storage proxies are enabled. */
  function ListActive(v: View, t: Tab): (b: bool)
    ensures b ==> v.status == Active && v.tab == t
    ensures t != StorageProxyLists ==> (b <==> v.status == Active && v.tab == t)
    ensures t == StorageProxyLists ==> (b <==> v.status == Active && v.tab == t && v.enableStorageProxy)
  {
    v.status == Active && v.tab == t && (t == StorageProxyLists ==> v.enableStorageProxy)
  }

  /** At most one list is bound active, and none while the view is inactive. */
  lemma AtMostOneListActive(v: View, t: Tab, u: Tab)
    requires ListActive(v, t) && ListActive(v, u)
    ensures t == u && v.status == Active
  {
  }

  /** After the view is activated, the current tab's list is bound active. */
  lemma ActivationActivatesCurrentList(v: View)
    requires v.tab in Contents(v.enableStorageProxy)
    ensures ListActive(ViewStateChanged(v, true), v.tab)
    ensures forall t :: t != v.tab ==> !ListActive(ViewStateChanged(v, true), t)
  {
  }

  /** The storage-proxy support flag changes, as `firstUpdated` or the
      'backend-ai-connected' handler reads it from the client. Turning it on
      renders the storage-proxy tab's content, hidden; turning it off removes
      that content. */
  function SetStorageProxySupport(v: View, supported: bool): (v': View)
    ensures v'.enableStorageProxy == supported
    ensures Coherent(v) ==> Coherent(v')
    ensures forall t :: t != StorageProxyLists && t in v.display ==> t in v'.display && v'.display[t] == v.display[t]
    ensures v'.tab == v.tab && v'.status == v.status && v'.lists == v.lists
  {
    var display :=
      if !supported then v.display - {StorageProxyLists}
      else if StorageProxyLists in v.display then v.display
      else v.display[StorageProxyLists := false];
    v.(enableStorageProxy := supported, display := display)
  }

  /** `firstUpdated`: with a ready client the support flag is read at once;
      with no client, or one not ready, nothing changes until the connection
      event arrives. */
  function FirstUpdated(v: View, client: Option<bool>): (v': View)
    ensures client.None? ==> v' == v
    ensures client.Some? ==> v'.enableStorageProxy == client.value
    ensures Coherent(v) ==> Coherent(v')
  {
    match client
    case None => v
    case Some(supported) => SetStorageProxySupport(v, supported)
  }

  /** The actions the view responds to. */
  datatype Action = Click(tab: Tab) | StateChange(active: bool) | Support(supported: bool)

  function Step(v: View, a: Action): View {
    match a
    case Click(t) => ShowTab(v, t)
    case StateChange(active) => ViewStateChanged(v, active)
    case Support(s) => SetStorageProxySupport(v, s)
  }

  function Steps(v: View, actions: seq<Action>): View
    decreases |actions|
  {
    if |actions| == 0 then v else Steps(Step(v, actions[0]), actions[1..])
  }

  /** From the first render on, whatever the clicks, view-state changes and
      support changes, at most one tab content is displayed and it is the
      current tab's. */
  lemma {:induction false} StepsKeepCoherent(v: View, actions: seq<Action>)
    requires Coherent(v)
    ensures Coherent(Steps(v, actions))
    decreases |actions|
  {
    if |actions| > 0 {
      var a := actions[0];
      if a.Click? {
        ShowTabCoherent(v, a.tab);
      }
      StepsKeepCoherent(Step(v, a), actions[1..]);
    }
  }
}
