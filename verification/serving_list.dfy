/** The query variables `ServingList` sends with its session-list query: the
    status filter that depends on the 'avoid-hol-blocking' feature, and the
    limit, offset, status, group and `skipClusterSize` values. Component
    props left undefined take their declared defaults. */
module ServingList {
  import opened Js
  import opened Text

  /** The component's props as passed; `None` is an omitted (undefined) prop. */
  datatype Props = Props(
    status: Option<seq<string>>,
    limit: Option<int>,
    currentPage: Option<int>,
    pageSize: Option<int>,
    projectId: Option<string>)

  /** The features the connected client reports through `supports`. */
  datatype Features = Features(avoidHolBlocking: bool, multiContainer: bool)

  /** The variables of the session-list query. */
  datatype Variables = Variables(
    limit: int,
    offset: int,
    status: string,
    groupId: Option<string>,
    skipClusterSize: bool)

  const Scheduled := "SCHEDULED"

  /** The props after destructuring with defaults: status [], limit 50, page 1,
      page size 50, and no project. */
  datatype Settled = Settled(status: seq<string>, limit: int, currentPage: int, pageSize: int, projectId: Option<string>)

  function WithDefaults(p: Props): (s: Settled)
    ensures p.status.None? ==> s.status == []
    ensures p.status.Some? ==> s.status == p.status.value
    ensures s.limit == p.limit.GetOr(50)
    ensures s.currentPage == p.currentPage.GetOr(1) && s.pageSize == p.pageSize.GetOr(50)
    ensures s.projectId == p.projectId
  {
    Settled(p.status.GetOr([]), p.limit.GetOr(50), p.currentPage.GetOr(1), p.pageSize.GetOr(50), p.projectId)
  }

  /** `xs.filter(e => e !== v)`. */
  function Remove(xs: seq<string>, v: string): (r: seq<string>)
    ensures forall x :: x in r <==> x in xs && x != v
    ensures |r| <= |xs|
  {
    if |xs| == 0 then []
    else (if xs[0] == v then [] else [xs[0]]) + Remove(xs[1..], v)
  }

  /** Filtering distributes over concatenation, so the kept entries stay in
      their original order. */
  lemma {:induction false} RemoveAppend(a: seq<string>, b: seq<string>, v: string)
    ensures Remove(a + b, v) == Remove(a, v) + Remove(b, v)
    decreases |a|
  {
    if |a| == 0 {
      assert a + b == b;
    } else {
      assert (a + b)[1..] == a[1..] + b;
      RemoveAppend(a[1..], b, v);
    }
  }

  /** A list without `v` passes the filter unchanged. */
  lemma {:induction false} RemoveAbsent(xs: seq<string>, v: string)
    requires v !in xs
    ensures Remove(xs, v) == xs
    decreases |xs|
  {
    if |xs| > 0 {
      assert v !in xs[1..];
      RemoveAbsent(xs[1..], v);
      assert [xs[0]] + xs[1..] == xs;
    }
  }

  /** The status list the query uses: without 'avoid-hol-blocking', every
      'SCHEDULED' entry is dropped; with it, the list is passed as given. */
  function FilterStatus(status: seq<string>, f: Features): (r: seq<string>)
    ensures f.avoidHolBlocking ==> r == status
    ensures !f.avoidHolBlocking ==> Scheduled !in r
    ensures forall x :: x in r <==> x in status && (f.avoidHolBlocking || x != Scheduled)
  {
    if !f.avoidHolBlocking && Scheduled in status then Remove(status, Scheduled) else status
  }

  /** Without the feature the filter is exactly `Remove`, whether or not the
      list held a 'SCHEDULED' entry. */
  lemma FilterStatusIsRemove(status: seq<string>, f: Features)
    requires !f.avoidHolBlocking
    ensures FilterStatus(status, f) == Remove(status, Scheduled)
  {
    if Scheduled !in status {
      RemoveAbsent(status, Scheduled);
    }
  }

  /** Filtering is idempotent. */
  lemma FilterStatusIdempotent(status: seq<string>, f: Features)
    ensures FilterStatus(FilterStatus(status, f), f) == FilterStatus(status, f)
  {
  }

  /** The query's variables for the given props and client features. */
  function QueryVariables(p: Props, f: Features): (v: Variables)
    ensures v.limit == WithDefaults(p).pageSize
    ensures v.offset == (WithDefaults(p).currentPage - 1) * WithDefaults(p).pageSize
    ensures v.groupId == p.projectId
    ensures v.skipClusterSize <==> !f.multiContainer
  {
    var s := WithDefaults(p);
    Variables(s.pageSize, (s.currentPage - 1) * s.pageSize, Join(FilterStatus(s.status, f), ","), s.projectId, !f.multiContainer)
  }

  /** The `limit` prop has no effect on the query. */
  lemma LimitPropIgnored(p: Props, limit: Option<int>, f: Features)
    ensures QueryVariables(p.(limit := limit), f) == QueryVariables(p, f)
  {
  }

  /** With every paging prop omitted the query asks for the first 50 rows. */
  lemma DefaultPaging(f: Features)
    ensures var v := QueryVariables(Props(None, None, None, None, None), f);
            v.limit == 50 && v.offset == 0 && v.status == ""
  {
  }

  /** Consecutive pages ask for consecutive windows of `pageSize` rows. */
  lemma NextPageOffset(p: Props, f: Features)
    ensures var next := p.(currentPage := Some(WithDefaults(p).currentPage + 1));
            QueryVariables(next, f).offset == QueryVariables(p, f).offset + QueryVariables(p, f).limit
  {
  }

  /** The status variable lists the filtered statuses: splitting it on ','
      gives them back, in order, when there is at least one and none holds a
      comma. */
  lemma StatusVariableRoundTrip(p: Props, f: Features)
    requires var st := FilterStatus(WithDefaults(p).status, f);
             |st| >= 1 && forall i :: 0 <= i < |st| ==> ',' !in st[i]
    ensures Split(QueryVariables(p, f).status, ',') == FilterStatus(WithDefaults(p).status, f)
  {
    SplitOfJoin(FilterStatus(WithDefaults(p).status, f), ',');
  }
}
