/** `loadCustomThemeConfig`: the fetched theme file is normalised into a
    light/dark/logo record, stored, and announced with a
    'custom-theme-loaded' event. The fetch and JSON parse are inputs; the
    stored record and the dispatched events are the state. */
module ThemeConfig {
  import opened Js

  /** A JavaScript value as `response.json()` can produce it, plus `undefined`
      for the result of reading a missing property. */
  datatype Json =
    | Undefined
    | Null
    | Bool(b: bool)
    | Num(n: int)
    | Str(s: string)
    | Arr(items: seq<Json>)
    | Obj(fields: map<string, Json>)

  /** Reading a property: `undefined` when an object lacks it or the value is
      not an object, and `None` for the TypeError of reading through `null`
      or `undefined`. */
  function Get(v: Json, key: string): (r: Option<Json>)
    ensures r.None? <==> v.Null? || v.Undefined?
    ensures v.Obj? && key in v.fields ==> r == Some(v.fields[key])
  {
    match v
    case Undefined => None
    case Null => None
    case Obj(fields) => Some(if key in fields then fields[key] else Undefined)
    case _ => Some(Undefined)
  }

  /** A record that names its light theme: the shape the console stores. */
  predicate HasLight(v: Json) {
    v.Obj? && "light" in v.fields && v.fields["light"] != Undefined
  }

  /** The normalisation inside the loader: a theme without `light` is taken
      as the theme for both modes, with its `logo` lifted beside them; a theme
      with `light` is kept as it is. Reading `theme.light` off `null` throws,
      which is `None`. */
  function Normalise(theme: Json): (r: Option<Json>)
    ensures r.None? <==> theme.Null? || theme.Undefined?
    ensures r.Some? && Get(theme, "light") != Some(Undefined) ==> r.value == theme
    ensures r.Some? && Get(theme, "light") == Some(Undefined) ==>
              r.value == Obj(map["light" := theme, "dark" := theme, "logo" := Get(theme, "logo").value])
  {
    match Get(theme, "light")
    case None => None
    case Some(light) =>
      if light == Undefined then
        Some(Obj(map["light" := theme, "dark" := theme, "logo" := Get(theme, "logo").value]))
      else Some(theme)
  }

  /** Normalising the stored record again returns it unchanged. */
  lemma NormaliseIdempotent(theme: Json)
    requires Normalise(theme).Some?
    ensures Normalise(Normalise(theme).value) == Normalise(theme)
  {
    var t := Normalise(theme).value;
    if Get(theme, "light") == Some(Undefined) {
      assert Get(t, "light") == Some(theme);
    }
  }

  /** A theme without its own `light` is stored as a record that has one. */
  lemma NormalisedHasLight(theme: Json)
    requires theme.Obj? && Get(theme, "light") == Some(Undefined)
    ensures HasLight(Normalise(theme).value)
  {
  }

  /** The loader's state: the module-level `_customTheme`, and the events
      dispatched on the document so far. */
  datatype Store = Store(custom: Option<Json>, events: seq<string>)

  const Loaded := "custom-theme-loaded"

  /** The module as loaded: no theme stored and no event dispatched. */
  const Initial := Store(None, [])

  /** One `loadCustomThemeConfig` run. `fetched` is the parsed theme file, or
      `None` when the fetch or the parse failed. The event is dispatched after
      the store is written, and neither happens when a step throws. */
  function Load(s: Store, fetched: Option<Json>): (s': Store)
    ensures fetched.None? || Normalise(fetched.value).None? ==> s' == s
    ensures fetched.Some? && Normalise(fetched.value).Some? ==>
              s'.custom == Normalise(fetched.value) && s'.events == s.events + [Loaded]
  {
    match fetched
    case None => s
    case Some(theme) =>
      match Normalise(theme)
      case None => s
      case Some(t) => Store(Some(t), s.events + [Loaded])
  }

  /** Whenever an event has been dispatched, a theme is stored, and it is a
      normalised one: normalising it again changes nothing. */
  predicate Announced(s: Store) {
    |s.events| > 0 ==> s.custom.Some? && Normalise(s.custom.value) == s.custom
  }

  /** Every run of loads from the start keeps that order: a listener woken by
      the event finds a normalised theme in the store. */
  lemma {:induction false} LoadsAnnounceStoredTheme(s: Store, fetches: seq<Option<Json>>)
    requires Announced(s)
    ensures Announced(LoadAll(s, fetches))
    decreases |fetches|
  {
    if |fetches| > 0 {
      var s1 := Load(s, fetches[0]);
      if s1 != s {
        NormaliseIdempotent(fetches[0].value);
      }
      LoadsAnnounceStoredTheme(s1, fetches[1..]);
    }
  }

  /** From the module's start, with no theme stored and no event dispatched,
      any run of loads leaves a normalised theme behind every event. */
  lemma LoadsFromStartAnnounceStoredTheme(fetches: seq<Option<Json>>)
    ensures Announced(LoadAll(Initial, fetches))
  {
    LoadsAnnounceStoredTheme(Initial, fetches);
  }

  function LoadAll(s: Store, fetches: seq<Option<Json>>): (s': Store)
    ensures |s'.events| >= |s.events|
    decreases |fetches|
  {
    if |fetches| == 0 then s else LoadAll(Load(s, fetches[0]), fetches[1..])
  }
}
