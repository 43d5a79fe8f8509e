# backend.ai-webui decision logic, in Dafny

This project models the small, pure decisions inside the Backend.AI web console
and proves what they promise. The console is mostly presentation code. What it
decides for itself is modelled as immutable records and total functions, one
module per source file:

- `WindowManager`: the registry of floating windows. It covers `count`, `has`,
  the idempotent `addWindow` and the `removeWindow` that ignores unknown names.
  The 'added' and 'removed' events are kept as an append-only log.
- `Dock`: the dock's width, and the buttons it draws in z-order. The z-order
  list is an input to these functions.
- `Console`: the constructor defaults and the page-name normalisation. It also
  covers the page's menu title and sidebar entry, `_loadPageElement`,
  `refreshPage`, and `logout`'s removal of the console's localStorage keys.
- `ImageList`: the installed-first sort of the environment images and the
  column comparators. It also covers the tag and registry splitting behind
  the Base, Constraint and Language columns.
- `ServingList`: the session-list query variables. These are the status filter
  that depends on 'avoid-hol-blocking', the limit, offset and status, and
  `skipClusterSize`.
- `HuggingFaceImport`: the URL check and the form validator, and when OK is
  enabled. It also covers the import payload, the notifications shown after an
  import, and the reset when the modal closes.
- `ThemeConfig`: the normalisation and storing of `resources/theme.json`, and
  the event that announces it.
- `AgentView` and `EnvironmentView`: the tab state of the two views. This is
  which content is displayed, which tab is current, and which child list is
  bound active.

Two support modules define the JavaScript behaviour the components rely on:

- `Js` covers `undefined`, truthiness, `x || undefined`, `_.isEmpty`, and
  string conversion.
- `Text` covers `split` on a character and on a run regex, `join`, and the
  string order that `localeCompare` is abstracted to.

The window manager file defines `count`, `has`, `addWindow` and
`removeWindow` over a name-keyed record. The dock reads a `zOrder` field that
the manager file does not declare, so the dock takes the z-order as a
parameter.

A few modelling choices:

- The registry is a sequence of windows with distinct names, in insertion
  order. `Object.keys` lists string keys in that order as long as none of
  them is integer-like, which the model assumes (see "Left out").
- `Array.prototype.sort` is stable, so the installed-first sort is modelled as
  a stable insertion sort. It is proved to equal the installed images followed
  by the others, each group in its original order.
- The URL field's pattern `^https:\/\/huggingface.co\/.*` is modelled as
  written. Its '.' is unescaped and matches any character except a line
  terminator, so the pattern also accepts addresses that are not on the hub.
  `PatternLooserThanPrefix` exhibits one. The pattern has no `u` flag, so its
  '.' matches one UTF-16 code unit; a character outside the Basic
  Multilingual Plane at that place fails it (`SurrogatePairRejected`).
- Strings are sequences of Unicode characters. Apart from the URL pattern
  and `Text.Compare`, every string operation here splits on or compares
  ASCII characters, or tests whole strings for equality, so counting code
  units would not change it. `Text.Compare` orders by code point, which
  differs from UTF-16 code-unit order between U+E000–U+FFFF and characters
  beyond U+FFFF; that order is part of the `localeCompare` abstraction
  admitted under "## Left out".
- Image fields the server leaves null are `None`, and string concatenation
  prints them as "null" (`Js.NullableToText`). An image without a name is
  shown in the Language column as "null".
- The validator's first branch rejects a failed check early. It gives the same
  reason the second branch would give, so the validator accepts exactly when
  the check passed and the pipeline is supported.

## Model

| member | source | states |
|---|---|---|
| `WindowManager.Count` | src/components/backend-ai-window-manager.ts:19-21 | the number of keys equals the size of the key set, because keys are distinct |
| `WindowManager.Has` | src/components/backend-ai-window-manager.ts:23-25 | holds exactly when the name is one of the registered keys |
| `WindowManager.Lookup` | src/components/backend-ai-window-manager.ts:17-29 | `windows[name]` is defined exactly when `has(name)`, and then it is a registered window with that name |
| `WindowManager.Delete` | src/components/backend-ai-window-manager.ts:38 | `delete` keeps exactly the windows with other names |
| `WindowManager.AddWindow` | src/components/backend-ai-window-manager.ts:27-34 | afterwards the name is registered; a known name changes nothing and emits nothing; a new name adds 1 to the count, stores the window and logs one 'added' event; other names keep their entries |
| `WindowManager.RemoveWindow` | src/components/backend-ai-window-manager.ts:36-42 | afterwards the name is unregistered; an unknown name changes nothing; a known name takes 1 from the count and logs one 'removed' event; other names keep their entries |
| `WindowManager.AddWindowIdempotent` | src/components/backend-ai-window-manager.ts:27-32 | adding the same window twice is adding it once |
| `WindowManager.AddThenRemoveRestores` | src/components/backend-ai-window-manager.ts:27-42 | adding a new window and then removing it restores the registry, and leaves the two events in the log |
| `WindowManager.EventsAccountForCount` | src/components/backend-ai-window-manager.ts:27-42 | after any run of adds and removes from the empty manager, the window count is the number of 'added' events minus the number of 'removed' events |
| `Dock.ShowsIcon` | src/components/backend-ai-dock.ts:83 | `windows[name]?.icon` is truthy only for a registered window whose icon is a non-empty string |
| `Dock.IconShownForRegisteredWindow` | src/components/backend-ai-dock.ts:83 | conversely, in a registry with unique names, every registered window with a non-empty icon has `windows[name]?.icon` truthy |
| `Dock.ButtonFor` | src/components/backend-ai-dock.ts:100-110 | a name draws a button exactly when its window exists and has a truthy icon; the button is drawn from that window |
| `Dock.Buttons` | src/components/backend-ai-dock.ts:100-111 | each z-order name draws at most one button |
| `Dock.ButtonsDrawRegisteredWindows` | src/components/backend-ai-dock.ts:100-110 | every button belongs to a z-order name. Its window's icon path gives an image button that carries `isTop`; any other icon gives a named-icon button without it |
| `Dock.ButtonsAppend` | src/components/backend-ai-dock.ts:100-111 | the buttons of a concatenated z-order are the buttons of each part in turn, so the buttons follow the z-order |
| `Dock.IconCount` | src/components/backend-ai-dock.ts:80-87 | the count never exceeds the z-order's length |
| `Dock.IconCountZero` | src/components/backend-ai-dock.ts:80-87 | the count is 0 exactly when no z-order name shows an icon |
| `Dock.ButtonsMatchCount` | src/components/backend-ai-dock.ts:81-110 | the number of buttons drawn equals the number of icon-bearing names `updateDockWidth` counts |
| `Dock.UpdateDockWidth` | src/components/backend-ai-dock.ts:80-89 | the width is 80 times the number of z-order names whose window has an icon, which is 80 per drawn button |
| `Dock.IconlessNameIgnored` | src/components/backend-ai-dock.ts:83-110 | a name with no window, or whose window has no icon, changes neither the buttons nor the width |
| `Console.Initial` | src/components/backend-ai-console.js:78-87 | the title is 'LOGIN REQUIRED', the user is 'DISCONNECTED', the endpoint is 'CLICK TO CONNECT', both flags are false and the page is '' |
| `Console.NormalisePage` | src/components/backend-ai-console.js:137-142 | a direct page is kept; any other page becomes the text after its last '/'; the result has no '/' |
| `Console.NormaliseIdempotent` | src/components/backend-ai-console.js:139-141 | normalising a normalised page changes nothing |
| `Console.MenuFor` | src/components/backend-ai-console.js:143-171 | the sidebar entry is one of 0, 1, 3, 6, 7, 8; the title is 'LOGIN REQUIRED' exactly for unknown pages, which select entry 0 |
| `Console.MenuTable` | src/components/backend-ai-console.js:143-167 | 'summary', 'job', 'data', 'agent', 'credential' and 'environment' show 'Summary' 0, 'Sessions' 1, 'Data' 3, 'Computation Resources' 6, 'Credentials & Policies' 7 and 'Environments' 8 |
| `Console.MenuIndexIdentifiesPage` | src/components/backend-ai-console.js:143-167 | each known page selects its own entry, so distinct known pages select distinct entries |
| `Console.PageAtInvertsMenu` | src/components/backend-ai-console.js:143-167 | every entry the switch can select leads back to a page that selects it |
| `Console.Updated` | src/components/backend-ai-console.js:135-173 | without a page change nothing changes; with one, the page is normalised and the title and entry are the normalised page's |
| `Console.UpdatedSettles` | src/components/backend-ai-console.js:135-142 | a second `updated` pass after the first changes nothing |
| `Console.LoadPageElement` | src/components/backend-ai-console.js:128-133 | '' and 'index.html' become 'summary'; other pages and all other fields are unchanged |
| `Console.DefaultPageSelectsSummary` | src/components/backend-ai-console.js:128-171 | a console opened at '' or 'index.html' ends on the summary page with the title 'Summary' and sidebar entry 0 |
| `Console.RefreshPage` | src/components/backend-ai-console.js:111-126 | the console is connected; it is admin exactly when a client is present and reports `is_admin` true; the e-mail and endpoint are copied; without a client the user-info step throws after the flags were set; the page, title and sidebar entry are unchanged |
| `Console.RefreshCommutesWithUpdated` | src/components/backend-ai-console.js:111-171 | refreshing the connection and routing a page change commute, and whether the refresh throws does not depend on the routing |
| `Console.Logout` | src/components/backend-ai-console.js:175-183 | exactly the keys starting with 'backendaiconsole.' are removed, and every other key keeps its value |
| `Text.SplitRuns` | src/components/backend-ai-console.js:140 | `split(/[\/]+/)` always gives at least one piece, so `pop()` always finds one |
| `Text.SplitRunsShape` | src/components/backend-ai-console.js:140 | no piece of that split holds '/'; a string without '/' is its own single piece, and one with '/' gives at least two |
| `Text.LastRunPiece` | src/components/backend-ai-console.js:140 | the last piece of that split is the text after the last '/' |
| `Text.Split` | react/src/components/ImageList.tsx:63 | `split('-')` gives at least one piece, no piece holds the separator, and a string with the separator gives at least two pieces |
| `Text.ConcatOfSplit` | react/src/components/ImageList.tsx:208-211 | joining split pieces with '' deletes the separator |
| `Text.SplitOfJoin` | react/src/components/ServingList.tsx:111 | joining separator-free pieces and splitting again gives the pieces back |
| `Text.Compare` | react/src/components/ImageList.tsx:131 | the order that stands in for `localeCompare` returns -1, 0 or 1, and 0 exactly on equal strings |
| `Text.CompareAntisymmetric` | react/src/components/ImageList.tsx:131 | swapping the operands negates the comparison |
| `Text.CompareTransitive` | react/src/components/ImageList.tsx:131 | the order is transitive |
| `Js.OrUndefined` | react/src/components/ImportFromHuggingFaceModal.tsx:165-166 | `s \|\| undefined` keeps a non-empty string and maps '' and undefined to undefined |
| `Js.OrEmpty` | react/src/components/ImageList.tsx:190-191 | `s \|\| ''` is '' exactly for an empty value |
| `ImageList.SortBasedOnInstalled` | react/src/components/ImageList.tsx:67-73 | -1 exactly when only the first is installed, 1 exactly when only the second is, 0 when both agree |
| `ImageList.SortBasedOnInstalledAntisymmetric` | react/src/components/ImageList.tsx:67-73 | swapping the images negates the comparison |
| `ImageList.StableSort` | react/src/components/ImageList.tsx:108-114 | the sorted copy is a permutation of the images |
| `ImageList.StableSortIsPartition` | react/src/components/ImageList.tsx:108-114 | the stable sort puts the installed images first and then the others, each group in its original order |
| `ImageList.SortedImages` | react/src/components/ImageList.tsx:108-114 | undefined exactly when nothing was fetched; otherwise a permutation with every installed image first and each group in its original order |
| `ImageList.FieldSorter` | react/src/components/ImageList.tsx:130-131 | the Registry, Architecture and Digest sorters return 0 when either side is missing or empty; otherwise they return 0 exactly on equal values |
| `ImageList.FieldSorterAntisymmetric` | react/src/components/ImageList.tsx:137-140 | swapping the images negates those sorters |
| `ImageList.EmptyFirst` | react/src/components/ImageList.tsx:189-196 | two empty values are equal, an empty value sorts before any other, and 0 only on equal values |
| `ImageList.EmptyFirstIsStringOrder` | react/src/components/ImageList.tsx:192-196 | the empty-first rule agrees with the string order, where '' is least |
| `ImageList.BaseImageKey` | react/src/components/ImageList.tsx:63 | the looked-up key holds no '-'; a null tag gives '' and a tag without '-' gives "undefined" |
| `ImageList.BaseImage` | react/src/components/ImageList.tsx:62-65 | the base image is the `tagAlias` entry for the tag's second '-'-piece, or undefined |
| `ImageList.BaseImageKeyIsSecondPiece` | react/src/components/ImageList.tsx:63 | for a tag `p0-p1` or `p0-p1-…` the looked-up key is `p1` |
| `ImageList.BaseImageSorterEmptyFirst` | react/src/components/ImageList.tsx:189-196 | an image without a base image ties with another without one, and sorts before one with one |
| `ImageList.ConstraintKey` | react/src/components/ImageList.tsx:208-210 | the constraint key holds no '-', and a null tag gives '' |
| `ImageList.ConstraintKeyIsRestWithoutDashes` | react/src/components/ImageList.tsx:207-211 | for a tag `p0-p1-rest` the constraint key is `rest` with its dashes removed |
| `ImageList.ConstraintKeyOfShortTag` | react/src/components/ImageList.tsx:207-211 | a tag with fewer than two dashes has the empty constraint key, which sorts first |
| `ImageList.EnvironmentPieces` | react/src/components/ImageList.tsx:56-57 | "registry/name" always splits into at least two '/'-pieces |
| `ImageList.EnvironmentLang` | react/src/components/ImageList.tsx:55-60 | the language is the last '/'-piece of "registry/name", or else a non-empty display name recorded in the metadata; which one, for which key, is stated by the two lemmas below |
| `ImageList.EnvironmentLangOfPlainName` | react/src/components/ImageList.tsx:55-60 | an image whose registry and name hold no '/' is shown by its name, and a null name is shown as "null" |
| `ImageList.EnvironmentLangOfNamespacedImage` | react/src/components/ImageList.tsx:55-60 | for registry `reg` and name `ns/key` or `ns/key/…`, the key looked up is the middle piece `key`: the language is the display name recorded for it, or else the text after the last '/', which is `key` for `ns/key` |
| `ImageList.LangSorter` | react/src/components/ImageList.tsx:161-165 | 0 when either language is empty; otherwise 0 exactly on equal languages |
| `ImageList.LangSorterAntisymmetric` | react/src/components/ImageList.tsx:161-165 | swapping the images negates the Language sorter |
| `ServingList.WithDefaults` | react/src/components/ServingList.tsx:26-35 | an omitted status is [], an omitted limit is 50, page 1 and page size 50 |
| `ServingList.Remove` | react/src/components/ServingList.tsx:46 | the filter keeps exactly the entries other than the removed value |
| `ServingList.RemoveAppend` | react/src/components/ServingList.tsx:46 | the filter distributes over concatenation, so kept entries keep their order |
| `ServingList.FilterStatus` | react/src/components/ServingList.tsx:42-47 | with 'avoid-hol-blocking' the list is unchanged; without it no 'SCHEDULED' remains, and every other entry is kept |
| `ServingList.FilterStatusIsRemove` | react/src/components/ServingList.tsx:42-47 | without the feature, the guarded filter is the plain filter whether or not 'SCHEDULED' occurs |
| `ServingList.FilterStatusIdempotent` | react/src/components/ServingList.tsx:42-47 | filtering the already-filtered statuses again changes nothing |
| `ServingList.QueryVariables` | react/src/components/ServingList.tsx:107-116 | the limit is the page size; the offset is (page − 1) × page size; the group is the project; `skipClusterSize` holds exactly without 'multi-container' |
| `ServingList.LimitPropIgnored` | react/src/components/ServingList.tsx:109 | the `limit` prop has no effect on the query |
| `ServingList.DefaultPaging` | react/src/components/ServingList.tsx:26-35 | with the paging props omitted the query asks for 50 rows at offset 0 with an empty status |
| `ServingList.NextPageOffset` | react/src/components/ServingList.tsx:110 | the next page starts where this page's rows end |
| `ServingList.StatusVariableRoundTrip` | react/src/components/ServingList.tsx:111 | splitting the status variable on ',' gives back the filtered statuses when there is at least one and none holds a comma |
| `HuggingFaceImport.QueryFn` | react/src/components/ImportFromHuggingFaceModal.tsx:93-113 | an empty URL yields {} with no request; an answer is tagged with the checked URL; a failure becomes `{isError: true, url}` |
| `HuggingFaceImport.Validator` | react/src/components/ImportFromHuggingFaceModal.tsx:282-308 | resolves exactly when the check passed and the pipeline is empty or 'text-generation'; rejects NotSupportedModel exactly when the check passed with another pipeline; otherwise rejects InvalidHuggingFaceUrl |
| `HuggingFaceImport.OkDisabled` | react/src/components/ImportFromHuggingFaceModal.tsx:115-229 | OK is disabled exactly when the validator does not resolve, that is unless the query data names a model fetched for the URL as typed now and its pipeline is supported |
| `HuggingFaceImport.FailedCheckRejected` | react/src/components/ImportFromHuggingFaceModal.tsx:106-119 | a check whose request failed is always rejected as an invalid URL |
| `HuggingFaceImport.SuccessfulCheckEnablesOk` | react/src/components/ImportFromHuggingFaceModal.tsx:100-119 | a successful check of the typed URL that names a model with a supported pipeline enables OK |
| `HuggingFaceImport.MatchesUrlPattern` | react/src/components/ImportFromHuggingFaceModal.tsx:248 | a match starts 'https://huggingface', then has one code unit that is not a line terminator, then 'co/' |
| `HuggingFaceImport.HubUrlsMatch` | react/src/components/ImportFromHuggingFaceModal.tsx:248 | every string starting 'https://huggingface.co/' passes the pattern |
| `HuggingFaceImport.PatternLooserThanPrefix` | react/src/components/ImportFromHuggingFaceModal.tsx:248 | the pattern also passes 'https://huggingfaceXco/', which does not start with the hub's address |
| `HuggingFaceImport.SurrogatePairRejected` | react/src/components/ImportFromHuggingFaceModal.tsx:248 | an address with a two-code-unit character in place of the '.' fails the pattern |
| `HuggingFaceImport.UrlFieldValid` | react/src/components/ImportFromHuggingFaceModal.tsx:244-250 | the field is valid exactly when the pattern matches, because the pattern already rejects '', and every hub address is valid |
| `HuggingFaceImport.EditingWithdrawsCheck` | react/src/components/ImportFromHuggingFaceModal.tsx:115-119 | typing a URL other than the checked one disables OK |
| `HuggingFaceImport.CheckUrl` | react/src/components/ImportFromHuggingFaceModal.tsx:202-211 | a URL that passes its rules becomes the checked URL and the query data is tagged with it; otherwise nothing changes |
| `HuggingFaceImport.CheckedUrlDecidesOk` | react/src/components/ImportFromHuggingFaceModal.tsx:202-229 | after a check, OK is enabled exactly when the server's answer names a model with a supported pipeline |
| `HuggingFaceImport.ResetOnClose` | react/src/components/ImportFromHuggingFaceModal.tsx:122-127 | closing clears the checked URL and the typed URL, and the query yields {}; an open modal is unchanged |
| `HuggingFaceImport.ClosedModalCannotSubmit` | react/src/components/ImportFromHuggingFaceModal.tsx:78-127 | closing returns the modal to its first-rendered state except for the import-only toggle, so OK is disabled and the validator rejects |
| `HuggingFaceImport.Payload` | react/src/components/ImportFromHuggingFaceModal.tsx:161-167 | the URL and the import-only toggle are forwarded; empty service and folder names become undefined, and non-empty ones are kept |
| `HuggingFaceImport.Submit` | react/src/components/ImportFromHuggingFaceModal.tsx:157-167 | a request is made exactly when the URL passes its rules and OK is enabled, and it carries the typed URL and the toggle |
| `HuggingFaceImport.SubmittedUrlWasChecked` | react/src/components/ImportFromHuggingFaceModal.tsx:157-167 | the submitted URL is the one the server checked |
| `HuggingFaceImport.Notifications` | react/src/components/ImportFromHuggingFaceModal.tsx:169-190 | one notification per created folder with id and name, then one per created service with endpoint and name. Each links to `/data?tab=model-store&folder=<id>` or `/serving/<endpoint_id>`, and its key carries the same id |
| `HuggingFaceImport.NothingCreatedNothingShown` | react/src/components/ImportFromHuggingFaceModal.tsx:170-180 | a response that created nothing shows nothing |
| `ThemeConfig.Get` | react/src/helper/customThemeConfig.ts:19-20 | reading a property of null throws; an object's own property is returned |
| `ThemeConfig.Normalise` | react/src/helper/customThemeConfig.ts:19-23 | a theme without `light` becomes {light: theme, dark: theme, logo: theme.logo}; a theme with `light` is kept; null throws |
| `ThemeConfig.NormaliseIdempotent` | react/src/helper/customThemeConfig.ts:19-23 | normalising the stored record again returns it unchanged |
| `ThemeConfig.NormalisedHasLight` | react/src/helper/customThemeConfig.ts:19-20 | a theme object without `light` is stored as a record that has one |
| `ThemeConfig.Load` | react/src/helper/customThemeConfig.ts:15-26 | a theme that normalises is stored, and then one 'custom-theme-loaded' event is dispatched; a failed fetch or a throw changes nothing |
| `ThemeConfig.LoadsAnnounceStoredTheme` | react/src/helper/customThemeConfig.ts:19-24 | after any run of loads, once an event has been dispatched a normalised theme is stored |
| `ThemeConfig.LoadsFromStartAnnounceStoredTheme` | react/src/helper/customThemeConfig.ts:13-24 | from the module's start, after any run of loads, every dispatched event has a normalised theme stored behind it |
| `AgentView.Contents` | src/components/backend-ai-agent-view.ts:141-153 | the storage-proxy content is rendered exactly when storage proxies are enabled; the other three always are |
| `AgentView.Initial` | src/components/backend-ai-agent-view.ts:42-44 | the view starts inactive on 'running-lists' without storage proxies, showing only the running list's content |
| `AgentView.HideAll` | src/components/backend-ai-agent-view.ts:110-113 | every rendered content is hidden |
| `AgentView.ShowTab` | src/components/backend-ai-agent-view.ts:109-116 | only the chosen content is shown and its tab becomes current; when that content is not rendered, everything is hidden and `_tab` is unchanged |
| `AgentView.ShowTabCoherent` | src/components/backend-ai-agent-view.ts:109-116 | showing a tab keeps the displayed content the current tab's |
| `AgentView.AtMostOneDisplayed` | src/components/backend-ai-agent-view.ts:109-116 | at most one content is displayed |
| `AgentView.ShowTabIdempotent` | src/components/backend-ai-agent-view.ts:109-116 | showing a tab twice is showing it once |
| `AgentView.ViewStateChanged` | src/components/backend-ai-agent-view.ts:89-102 | deactivation makes all three lists inactive. Activation makes the running and terminated lists active and the resource-group list inactive. The status follows |
| `AgentView.ScalingGroupsNeverActivated` | src/components/backend-ai-agent-view.ts:94-100 | no view-state change leaves the resource-group list active |
| `AgentView.ListActive` | src/components/backend-ai-agent-view.ts:142-152 | a list is bound active exactly when the view is active and its tab is current; the storage-proxy list additionally needs storage proxies enabled |
| `AgentView.AtMostOneListActive` | src/components/backend-ai-agent-view.ts:142-152 | at most one list is bound active, and none while the view is inactive |
| `AgentView.ActivationActivatesCurrentList` | src/components/backend-ai-agent-view.ts:98-152 | after activation the current tab's list, and only it, is bound active |
| `AgentView.SetStorageProxySupport` | src/components/backend-ai-agent-view.ts:133-150 | enabling storage proxies adds their content hidden, and disabling removes it; other contents are unchanged |
| `AgentView.FirstUpdated` | src/components/backend-ai-agent-view.ts:73-82 | with a ready client the support flag is read at once; otherwise nothing changes |
| `AgentView.StepsKeepCoherent` | src/components/backend-ai-agent-view.ts:89-152 | under any clicks, view-state changes and support changes, at most one content is displayed, and it is the current tab's |
| `EnvironmentView.Initial` | src/components/backend-ai-environment-view.js:24-29 | the view starts inactive on 'image-lists' with no images |
| `EnvironmentView.AttributeChanged` | src/components/backend-ai-environment-view.js:72-81 | the view is active exactly when the changed attribute is 'active' with a non-null value |
| `EnvironmentView.RemovingActiveDeactivates` | src/components/backend-ai-environment-view.js:72-79 | removing the `active` attribute deactivates the view |
| `EnvironmentView.AttributeChangeGatesRender` | src/components/backend-ai-environment-view.js:72-124 | after an attribute change the view renders exactly when `active` was set to a non-null value |
| `EnvironmentView.ListActive` | src/components/backend-ai-environment-view.js:113-116 | comparing the current tab's value with a list's tab value binds exactly the current tab's list |
| `EnvironmentView.Update` | src/components/backend-ai-environment-view.js:99-124 | `shouldUpdate` lets only an active view re-render: an active view rebinds each list to whether its tab is current; an inactive one is unchanged; a render changes nothing but the bound flags |
| `EnvironmentView.OneListBoundActive` | src/components/backend-ai-environment-view.js:113-116 | after a render, exactly one list is bound active |
| `EnvironmentView.ShowTab` | src/components/backend-ai-environment-view.js:90-97 | the tab becomes current and only its content is shown |
| `EnvironmentView.ShownTabIsBoundActive` | src/components/backend-ai-environment-view.js:90-116 | after a tab is shown and the active view re-renders, the shown content and the one active list both belong to that tab |
| `EnvironmentView.InactiveViewKeepsBinding` | src/components/backend-ai-environment-view.js:122-124 | while the view is inactive, a tab switch does not rebind the lists |

## Left out

- Rendering is not modelled: templates, CSS, widgets, i18n text, and the
  notification descriptions built from translated text. Tab display is a map
  from each content to shown or hidden.
- Network and fetching are not modelled: GraphQL queries, signed requests,
  and the `fetch` of the theme file. Their results are inputs (`response`,
  `fetched`, the client's features).
- Asynchrony is not modelled: `await updateComplete`, React transitions and
  effects, listeners, `location.reload`, and `_menuChanged`, which changes no
  state. A dispatched event is an append to a log.
- `Text.Compare`: `localeCompare` depends on the locale. It is abstracted to
  code-point lexicographic order, which neither follows a locale's collation
  nor UTF-16 code-unit order.
- The Namespace and Version columns of the image table are left out. They
  call `getImageFullName`, `getNamespace` and `getBaseVersion`, which are
  hooks that are not part of this model.
- The image table's row selection, resource-limit cells and the
  `ConstraintTags` rendering are presentation and are left out.
- The serving list's table body is left out. It references a query type and
  a `filter` that the file does not define. Only the query variables are
  modelled.
- `Console.RefreshPage`: the sign-button icon is left out, and the loose
  `is_admin == true` test is modelled as the boolean `true`.
- `ImageList.EnvironmentLang`: `metadata.imageInfo` is a plain object in
  the source and a map here. Keys are assumed not to be properties of
  `Object.prototype`: for a name `ns/constructor` the source would show
  "Object", the name of the inherited constructor, where the model shows
  "constructor". A `metadata` object without `imageInfo` would throw in the
  source; the model's metadata always has both tables.
- `ImageList.BaseImage`: `metadata.tagAlias` is likewise a plain object. A
  tag piece such as `toString` would look up an inherited function, and the
  Base sorter would then throw at `localeCompare`; the model finds no alias.
- `EnvironmentView.AttributeChanged`: only the `active` attribute is
  modelled, and every other attribute is taken to leave the tab alone. The
  declared `_activeTab` property (a Boolean) is also observed as the
  `_activetab` attribute; changing it would deactivate the view and, through
  the base class's callback, set `_activeTab` to a boolean, binding neither
  list active. That path is not modelled.
- `Console.Logout`: setting the client to null and reloading the page are
  left out.
- `Console.Updated`: the sidebar's `selected` is modelled as a field of the
  console.
- `Dock.Buttons`: its own contract bounds only the count. The content and
  order are stated by `ButtonsDrawRegisteredWindows`, `ButtonsAppend` and
  `ButtonsMatchCount`.
- `HuggingFaceImport.Submit`: the form's URL value is taken to be the typed
  URL, because one input element feeds both. The validation on a data
  change, and the error message shown on a failed import, are left out.
- `AgentView.ViewStateChanged`: the three list flags are the properties that
  `_viewStateChanged` writes. The render's `?active` binding is modelled
  separately by `ListActive`.
- `ThemeConfig.Load`: the `useCustomThemeConfig` hook is left out. A fetched
  theme is any JSON value; integers stand in for JSON numbers.
- Windows: the `zOrder` list the dock reads is not declared in the window
  manager file, so how it is kept is not modelled; the dock takes it as an
  input.
- `WindowManager.AddWindow`: window names are assumed to be neither
  integer-like (`Object.keys` would list those first, in numeric order) nor
  properties of `Object.prototype`. A name such as `__proto__` would not
  become an own key, so the 'added' event would fire on every call, and
  `windows["toString"]` is defined while `has("toString")` is false; neither
  is modelled. The `console.log` of the registry on every call is dropped.
- Numbers in props and query variables are unbounded integers. Fractional and
  non-finite JavaScript numbers are left out.
- The components outside this model (the agent selector, the main layout,
  the session owner card, the demo and example components) are not modelled.
