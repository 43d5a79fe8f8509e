/** The gate of `ImportFromHuggingFaceModal`: a typed Hugging Face URL is
    checked against the server, the check's result decides whether the form
    validator accepts and whether OK is enabled, and a submitted form becomes
    an import request whose response selects the notifications shown. The
    server's answers are inputs; the URL field's value is the typed URL,
    since one input element feeds both. */
module HuggingFaceImport {
  import opened Js
  import opened Text

  /** The query data the modal reads. A field the server did not send is `None`. */
  datatype ModelInfo = ModelInfo(
    author: Option<string>,
    modelName: Option<string>,
    markdown: Option<string>,
    pipelineTag: Option<string>,
    isError: bool,
    url: Option<string>)

  /** `{}`: the data of a query that made no request. */
  const NoInfo := ModelInfo(None, None, None, None, false, None)

  /** The modal's state: the URL last checked (`huggingFaceURL`), the URL as
      typed, the import-only toggle and the current query data. */
  datatype Modal = Modal(checkedUrl: Option<string>, typedUrl: string, importOnly: bool, info: ModelInfo)

  /** The modal as first rendered, before any query data arrived. */
  const Initial := Modal(None, "", false, NoInfo)

  /** The query function for the checked URL. An empty or missing URL makes no
      request and yields `{}`. Otherwise `response` is the server's answer, or
      `None` when the request failed: an answer is spread and tagged with the
      checked URL, and a failure becomes `{isError: true, url}`. */
  function QueryFn(checked: Option<string>, response: Option<ModelInfo>): (d: ModelInfo)
    ensures IsEmpty(checked) ==> d == NoInfo
    ensures !IsEmpty(checked) ==> d.url == checked
    ensures !IsEmpty(checked) && response.Some? ==> d == response.value.(url := checked)
    ensures !IsEmpty(checked) && response.None? ==> d.isError && d.modelName.None? && d.pipelineTag.None?
  {
    if IsEmpty(checked) then NoInfo
    else match response
      case Some(res) => res.(url := checked)
      case None => NoInfo.(isError := true, url := checked)
  }

  /** `isHuggingfaceURLExisted`: the query data names a model. */
  predicate UrlExisted(m: Modal) {
    !IsEmpty(m.info.modelName)
  }

  /** `shouldSkipURLCheck`: the data names a model and was fetched for the
      URL as it is typed now. */
  predicate ShouldSkipURLCheck(m: Modal) {
    UrlExisted(m) && m.checkedUrl == Some(m.typedUrl)
  }

  /** The pipeline is one the import supports: none is reported, or it is
      'text-generation'. */
  predicate PipelineSupported(info: ModelInfo) {
    IsEmpty(info.pipelineTag) || info.pipelineTag == Some("text-generation")
  }

  datatype Reason = InvalidHuggingFaceUrl | NotSupportedModel
  datatype Verdict = Resolve | Reject(reason: Reason)

  /** The form validator, with its first branch as written: a failed check of
      the typed URL rejects early, with the same reason the second branch
      would give. */
  function Validator(m: Modal): (v: Verdict)
    ensures v == Resolve <==> ShouldSkipURLCheck(m) && PipelineSupported(m.info)
    ensures v == Reject(NotSupportedModel) <==> ShouldSkipURLCheck(m) && !PipelineSupported(m.info)
    ensures v == Reject(InvalidHuggingFaceUrl) <==> !ShouldSkipURLCheck(m)
  {
    if !UrlExisted(m) && m.info.isError && m.info.url == Some(m.typedUrl) then
      Reject(InvalidHuggingFaceUrl)
    else if !ShouldSkipURLCheck(m) then
      Reject(InvalidHuggingFaceUrl)
    else if !PipelineSupported(m.info) then
      Reject(NotSupportedModel)
    else
      Resolve
  }

  /** The OK button's `disabled` condition. */
  function OkDisabled(m: Modal): (b: bool)
    ensures b <==> Validator(m) != Resolve
  {
    !ShouldSkipURLCheck(m) ||
    (!IsEmpty(m.info.pipelineTag) && m.info.pipelineTag != Some("text-generation"))
  }

  /** Whatever the query returned, the validator never accepts a URL whose
      check failed: a failure carries no model name. */
  lemma FailedCheckRejected(m: Modal, checked: string)
    requires checked != ""
    ensures Validator(m.(checkedUrl := Some(checked), info := QueryFn(Some(checked), None)))
              == Reject(InvalidHuggingFaceUrl)
  {
  }

  /** A successful check of the typed URL reporting a supported model enables OK. */
  lemma SuccessfulCheckEnablesOk(m: Modal, res: ModelInfo)
    requires m.typedUrl != ""
    requires Truthy(res.modelName) && PipelineSupported(res)
    ensures !OkDisabled(m.(checkedUrl := Some(m.typedUrl), info := QueryFn(Some(m.typedUrl), Some(res))))
  {
  }

  /* ---------------------------------------------------------------------- */
  /* the URL field                                                           */
  /* ---------------------------------------------------------------------- */

  const HubPrefix := "https://huggingface.co/"

  /** The characters `.` does not match in a JavaScript pattern. */
  predicate LineTerminator(c: char) {
    c == '\n' || c == '\r' || c == '\U{2028}' || c == '\U{2029}'
  }

  /** A character JavaScript stores as one UTF-16 code unit; any other is a
      surrogate pair. */
  predicate OneCodeUnit(c: char) {
    c as int < 0x1_0000
  }

  /** The URL field's pattern `^https:\/\/huggingface.co\/.*` as written: its
      '.' after "huggingface" is unescaped and matches any one code unit but a
      line terminator, and the trailing `.*` may match nothing. The pattern
      has no `u` flag, so a character outside the Basic Multilingual Plane is
      two code units there and leaves "co/" to start at its second half. */
  function MatchesUrlPattern(s: string): (b: bool)
    ensures b ==> StartsWith(s, HubPrefix[..19]) && |s| >= |HubPrefix| && s[20..23] == "co/"
    ensures b ==> OneCodeUnit(s[19]) && !LineTerminator(s[19])
  {
    && |s| >= |HubPrefix|
    && s[..19] == HubPrefix[..19]
    && OneCodeUnit(s[19])
    && !LineTerminator(s[19])
    && s[20..23] == HubPrefix[20..]
  }

  /** Every URL that starts with the hub's address passes the pattern. */
  lemma HubUrlsMatch(s: string)
    requires StartsWith(s, HubPrefix)
    ensures MatchesUrlPattern(s)
  {
    assert s[..23] == HubPrefix;
    assert s[..19] == s[..23][..19];
    assert s[20..23] == s[..23][20..];
  }

  /** The pattern also passes addresses off the hub: the unescaped '.' matches
      any character. */
  lemma PatternLooserThanPrefix()
    ensures MatchesUrlPattern("https://huggingfaceXco/")
    ensures !StartsWith("https://huggingfaceXco/", HubPrefix)
  {
    assert "https://huggingfaceXco/"[19] != HubPrefix[19];
  }

  /** A character that takes two code units cannot stand for the '.', so
      such an address fails the pattern. */
  lemma SurrogatePairRejected(c: char)
    requires !OneCodeUnit(c)
    ensures !MatchesUrlPattern(HubPrefix[..19] + [c] + "co/")
  {
    assert (HubPrefix[..19] + [c] + "co/")[19] == c;
  }

  /** The URL field's rules: required, and the pattern. The pattern already
      demands a non-empty value, so it alone decides; every hub address
      passes. */
  function UrlFieldValid(url: string): (b: bool)
    ensures b <==> MatchesUrlPattern(url)
    ensures StartsWith(url, HubPrefix) ==> b
  {
    if StartsWith(url, HubPrefix) then
      HubUrlsMatch(url);
      url != "" && MatchesUrlPattern(url)
    else url != "" && MatchesUrlPattern(url)
  }

  /** Typing into the URL field. */
  function Type(m: Modal, url: string): Modal {
    m.(typedUrl := url)
  }

  /** Editing the URL after a check withdraws it: OK is disabled until the new
      URL is checked. */
  lemma EditingWithdrawsCheck(m: Modal, url: string)
    requires m.checkedUrl != Some(url)
    ensures OkDisabled(Type(m, url))
  {
  }

  /** `handleOnCheck`: when the URL field passes its rules, the typed URL
      becomes the checked one and the query runs for it, `response` being the
      server's answer; otherwise nothing changes. */
  function CheckUrl(m: Modal, response: Option<ModelInfo>): (m': Modal)
    ensures UrlFieldValid(m.typedUrl) ==> m'.checkedUrl == Some(m.typedUrl) && m'.info.url == Some(m.typedUrl)
    ensures !UrlFieldValid(m.typedUrl) ==> m' == m
    ensures m'.typedUrl == m.typedUrl && m'.importOnly == m.importOnly
  {
    if UrlFieldValid(m.typedUrl) then
      var checked := Some(m.typedUrl);
      m.(checkedUrl := checked, info := QueryFn(checked, response))
    else m
  }

  /** After a check the validator's verdict depends only on the server's
      answer: OK is enabled exactly when it names a model with a supported
      pipeline. */
  lemma CheckedUrlDecidesOk(m: Modal, response: Option<ModelInfo>)
    requires UrlFieldValid(m.typedUrl)
    ensures !OkDisabled(CheckUrl(m, response)) <==>
              response.Some? && Truthy(response.value.modelName) && PipelineSupported(response.value)
  {
  }

  /** The effect run when `open` changes: a closed modal forgets the checked
      URL and clears the typed one, and the query for no URL yields `{}`. */
  function ResetOnClose(m: Modal, open: bool): (m': Modal)
    ensures open ==> m' == m
    ensures !open ==> m'.checkedUrl.None? && m'.typedUrl == "" && m'.info == NoInfo
  {
    if open then m
    else m.(checkedUrl := None, typedUrl := "", info := QueryFn(None, None))
  }

  /** A closed modal cannot submit: the reset returns it to its first-rendered
      state but for the import-only toggle, so OK stays disabled and the
      validator rejects until a new URL is typed and checked. */
  lemma ClosedModalCannotSubmit(m: Modal)
    ensures ResetOnClose(m, false) == Initial.(importOnly := m.importOnly)
    ensures OkDisabled(ResetOnClose(m, false))
    ensures Validator(ResetOnClose(m, false)) == Reject(InvalidHuggingFaceUrl)
  {
  }

  /* ---------------------------------------------------------------------- */
  /* submitting                                                              */
  /* ---------------------------------------------------------------------- */

  /** The request body of the import mutation. */
  datatype Body = Body(huggingfaceUrl: string, importOnly: bool, serviceName: Option<string>, folderName: Option<string>)

  /** The mutation payload built from the form's values: empty service and
      folder names are sent as undefined, and the import-only toggle is
      forwarded. */
  function Payload(url: string, importOnly: bool, serviceName: Option<string>, folderName: Option<string>): (b: Body)
    ensures b.huggingfaceUrl == url && b.importOnly == importOnly
    ensures b.serviceName.Some? <==> Truthy(serviceName)
    ensures b.folderName.Some? <==> Truthy(folderName)
    ensures b.serviceName.Some? ==> b.serviceName == serviceName
    ensures b.folderName.Some? ==> b.folderName == folderName
  {
    Body(url, importOnly, OrUndefined(serviceName), OrUndefined(folderName))
  }

  /** `handleOnClick`: the form is validated as a whole and, when every rule
      passes, the import is requested; otherwise no request is made. */
  function Submit(m: Modal, serviceName: Option<string>, folderName: Option<string>): (r: Option<Body>)
    ensures r.Some? <==> UrlFieldValid(m.typedUrl) && !OkDisabled(m)
    ensures r.Some? ==> r.value.huggingfaceUrl == m.typedUrl && r.value.importOnly == m.importOnly
  {
    if UrlFieldValid(m.typedUrl) && Validator(m) == Resolve then
      Some(Payload(m.typedUrl, m.importOnly, serviceName, folderName))
    else None
  }

  /** A submitted URL is the one the server checked. */
  lemma SubmittedUrlWasChecked(m: Modal, serviceName: Option<string>, folderName: Option<string>)
    requires Submit(m, serviceName, folderName).Some?
    ensures m.checkedUrl == Some(Submit(m, serviceName, folderName).value.huggingfaceUrl)
  {
  }

  /* ---------------------------------------------------------------------- */
  /* notifications                                                           */
  /* ---------------------------------------------------------------------- */

  datatype Folder = Folder(id: Option<string>, name: Option<string>)
  datatype Service = Service(endpointId: Option<string>, name: Option<string>)

  /** The mutation's response, as far as the notifications read it. */
  datatype Created = Created(folder: Option<Folder>, service: Option<Service>)

  /** A notification: its key, the name it announces and the link it offers. */
  datatype Notification = Notification(key: string, subject: string, to: string)

  const KeyPrefix := "ImportFromHuggingFaceModal"
  const FolderLink := "/data?tab=model-store&folder="
  const ServiceLink := "/serving/"

  predicate FolderCreated(d: Created) {
    d.folder.Some? && Truthy(d.folder.value.id) && Truthy(d.folder.value.name)
  }

  predicate ServiceCreated(d: Created) {
    d.service.Some? && Truthy(d.service.value.endpointId) && Truthy(d.service.value.name)
  }

  /** The id a notification's key carries, after the common key prefix. */
  predicate KeyNamesLink(n: Notification, link: string) {
    && StartsWith(n.key, KeyPrefix)
    && StartsWith(n.to, link)
    && n.key[|KeyPrefix|..] == n.to[|link|..]
  }

  /** `onSuccess`: a folder notification when the response names a created
      folder with id and name, then a service notification when it names a
      created service with endpoint and name. Each key and link carry the
      same id. */
  function Notifications(d: Created): (ns: seq<Notification>)
    ensures |ns| == (if FolderCreated(d) then 1 else 0) + (if ServiceCreated(d) then 1 else 0)
    ensures FolderCreated(d) ==>
              ns[0].subject == d.folder.value.name.value && KeyNamesLink(ns[0], FolderLink)
              && ns[0].to[|FolderLink|..] == d.folder.value.id.value
    ensures ServiceCreated(d) ==>
              Last(ns).subject == d.service.value.name.value && KeyNamesLink(Last(ns), ServiceLink)
              && Last(ns).to[|ServiceLink|..] == d.service.value.endpointId.value
  {
    var folder :=
      if FolderCreated(d) then
        var id := d.folder.value.id.value;
        assert (FolderLink + id)[|FolderLink|..] == id;
        assert (KeyPrefix + id)[|KeyPrefix|..] == id;
        [Notification(KeyPrefix + id, d.folder.value.name.value, FolderLink + id)]
      else [];
    var service :=
      if ServiceCreated(d) then
        var id := d.service.value.endpointId.value;
        assert (ServiceLink + id)[|ServiceLink|..] == id;
        assert (KeyPrefix + id)[|KeyPrefix|..] == id;
        [Notification(KeyPrefix + id, d.service.value.name.value, ServiceLink + id)]
      else [];
    folder + service
  }

  /** A response that created nothing shows nothing. */
  lemma NothingCreatedNothingShown(d: Created)
    requires d.folder.None? && d.service.None?
    ensures Notifications(d) == []
  {
  }
}
