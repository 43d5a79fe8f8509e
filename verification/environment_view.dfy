/** The tab state of `backend-ai-environment-view`: the `active` flag driven
    by attribute changes, the gate that lets the view re-render only while
    active, the current tab, the displayed tab content, and the `?active`
    binding of the image and preset lists. */
module EnvironmentView {
  import opened Js

  /** The view's tabs, by the value of each tab and the id of its content. */
  datatype Tab = ImageLists | ResourceTemplateLists {
    function Value(): string {
      match this
      case ImageLists => "image-lists"
      case ResourceTemplateLists => "resource-template-lists"
    }
  }

  /** The `?active` flags the last render bound on the two lists. */
  datatype Bound = Bound(images: bool, templates: bool)

  datatype View = View(
    active: bool,
    activeTab: Tab,
    images: map<string, string>,
    display: map<Tab, bool>,
    rendered: Bound)

  /** The view as constructed: inactive, on the image list, with no images,
      and nothing rendered yet. */
  function Initial(): (v: View)
    ensures !v.active && v.activeTab == ImageLists && v.images == map[]
    ensures !v.rendered.images && !v.rendered.templates
  {
    View(false, ImageLists, map[], map[ImageLists := true, ResourceTemplateLists := false], Bound(false, false))
  }

  /** `attributeChangedCallback(name, oldval, newval)`: the view is active
      exactly when the `active` attribute was set to a non-null value; any
      other attribute change deactivates it. `newval` is `None` for null. */
  function AttributeChanged(v: View, name: string, newval: Option<string>): (v': View)
    ensures v'.active <==> name == "active" && newval.Some?
    ensures v'.activeTab == v.activeTab && v'.display == v.display && v'.rendered == v.rendered
  {
    v.(active := name == "active" && newval.Some?)
  }

  /** Setting then removing the `active` attribute leaves the view inactive. */
  lemma RemovingActiveDeactivates(v: View, value: string)
    ensures !AttributeChanged(AttributeChanged(v, "active", Some(value)), "active", None).active
  {
  }

  /** `shouldUpdate`: the view re-renders only while active, so whether it
      does is decided by the last `active` attribute change. */
  predicate ShouldUpdate(v: View) {
    v.active
  }

  /** After an attribute change the view re-renders exactly when that change
      set `active` to a non-null value. */
  lemma AttributeChangeGatesRender(v: View, name: string, newval: Option<string>)
    ensures ShouldUpdate(AttributeChanged(v, name, newval)) <==> name == "active" && newval.Some?
  {
  }

  /** The `?active` binding of a list: the current tab's value is the list's
      tab value. The values are distinct, so exactly the current tab's list
      is bound. */
  function ListActive(v: View, t: Tab): (b: bool)
    ensures b <==> v.activeTab == t
  {
    v.activeTab.Value() == t.Value()
  }

  /** A render pass: the bound flags are refreshed only when `shouldUpdate`
      allows it, and nothing but the bound flags changes. */
  function Update(v: View): (v': View)
    ensures v.active ==> v'.rendered.images == ListActive(v, ImageLists)
    ensures v.active ==> v'.rendered.templates == ListActive(v, ResourceTemplateLists)
    ensures !v.active ==> v' == v
    ensures v' == v.(rendered := v'.rendered)
  {
    if ShouldUpdate(v) then
      v.(rendered := Bound(v.activeTab == ImageLists, v.activeTab == ResourceTemplateLists))
    else v
  }

  /** Exactly one list is bound active after a render while active. */
  lemma OneListBoundActive(v: View)
    requires v.active
    ensures Update(v).rendered.images != Update(v).rendered.templates
  {
  }

  /** `_showTab(tab)`: hides both contents, makes the tab current, and shows
      its content. Both contents are always rendered, so the lookup finds it. */
  function ShowTab(v: View, t: Tab): (v': View)
    ensures v'.activeTab == t
    ensures v'.display.Keys == {ImageLists, ResourceTemplateLists}
    ensures forall u :: u in v'.display ==> (v'.display[u] <==> u == t)
    ensures v'.active == v.active && v'.rendered == v.rendered
  {
    v.(activeTab := t, display := map[ImageLists := t == ImageLists, ResourceTemplateLists := t == ResourceTemplateLists])
  }

  /** After a tab is shown and the active view re-renders, the displayed
      content and the one list bound active both belong to that tab. */
  lemma ShownTabIsBoundActive(v: View, t: Tab)
    requires v.active
    ensures var w := Update(ShowTab(v, t));
            w.display[t] && (w.rendered.images <==> t == ImageLists) && (w.rendered.templates <==> t == ResourceTemplateLists)
  {
  }

  /** While the view is inactive a render changes nothing, so a tab switch
      made then is bound only once the view is activated again. */
  lemma InactiveViewKeepsBinding(v: View, t: Tab)
    requires !v.active
    ensures Update(ShowTab(v, t)).rendered == v.rendered
  {
  }
}
