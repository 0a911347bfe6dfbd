/** The record tab that shows a record's hierarchy trees
    (`VuFind\RecordTab\HierarchyTree`). The collaborators (record driver,
    hierarchy driver, request, configuration) are plain values. A tab is an
    immutable value, and every operation that consults the memoised tree list
    returns the tab with its cache filled, next to its result. */
module HierarchyTree {
  import opened Wrappers
  import opened PhpStrings

  /** A scalar as PHP configuration and tree settings hold it. */
  datatype Scalar = Bool(b: bool) | Int(i: int) | Str(s: string)

  /** PHP truthiness of a scalar: `false`, `0`, `""` and `"0"` are falsy. */
  predicate ScalarTruthy(v: Scalar) {
    match v
    case Bool(b) => b
    case Int(i) => i != 0
    case Str(s) => Truthy(s)
  }

  /** The trees a record belongs to: (tree id, label) pairs in the order the
      record driver lists them. */
  type TreeList = seq<(string, string)>

  /** The tree ids of a tree list. */
  function Keys(trees: TreeList): (keys: set<string>) {
    set k | 0 <= k < |trees| :: trees[k].0
  }

  /** The hierarchy driver of a record. `fullHierarchyRecordView` is that key
      of `getTreeSettings()` (`None` when unset or null); `render` stands for
      the driver's `render($recordDriver, $context, $mode, $id)`, whose markup
      this model treats as opaque. */
  datatype HierarchyDriver = HierarchyDriver(
    fullHierarchyRecordView: Option<Scalar>,
    render: (string, string, Option<string>) -> string)

  /** What the tab asks of the record driver: the result of
      `tryMethod('getHierarchyTrees')` (`None` when the method is missing or
      returns null), of `tryMethod('getHierarchyDriver')`, and the record's
      unique id. */
  datatype RecordDriver = RecordDriver(
    hierarchyTrees: Option<TreeList>,
    hierarchyDriver: Option<HierarchyDriver>,
    uniqueId: string)

  /** The `hierarchy` parameter of the current request, in the POST body and
      in the query string (`None` when the parameter is absent there). */
  datatype Request = Request(post: Option<string>, query: Option<string>)

  /** The `[Hierarchy]` settings: `search` and `treeSearchLimit`, `None` when
      unset. */
  datatype Config = Config(search: Option<Scalar>, treeSearchLimit: Option<int>)

  /** The tab: its collaborators, and the tree-list cache (`None` until the
      list has been computed). */
  datatype Tab = Tab(
    record: RecordDriver,
    request: Option<Request>,
    config: Config,
    treeCache: Option<TreeList>)

  /** `getDescription()`: the on-screen description of the tab is the fixed
      translation key "hierarchy_tree", whatever the tab's state. */
  function GetDescription(tab: Tab): (r: string)
    ensures r == "hierarchy_tree"
  {
    "hierarchy_tree"
  }

  /** The token the hierarchy driver leaves in its markup for the base URL. */
  const BaseUrlPlaceholder: string := "%%%%VUFIND-BASE-URL%%%%"

  /** The output mode the tab asks the hierarchy driver for. */
  const ListMode: string := "List"

  /** The rendering context used when the caller names none. */
  const DefaultContext: string := "Record"

  /** A tab as the host application constructs it: nothing cached yet. */
  function NewTab(record: RecordDriver, request: Option<Request>, config: Config): (tab: Tab) {
    Tab(record, request, config, None)
  }

  // ---------------------------------------------------------------------
  // getTreeList / isActive
  // ---------------------------------------------------------------------

  /** `getTreeList()`: on the first call asks the record driver for its trees,
      with an absent answer read as the empty list, and caches the list; later
      calls return the cache. Only the cache of the tab changes. */
  function GetTreeList(tab: Tab): (res: (TreeList, Tab))
    ensures res.1 == tab.(treeCache := Some(res.0))
    ensures tab.treeCache.Some? ==> res.0 == tab.treeCache.value
    ensures tab.treeCache.None? && tab.record.hierarchyTrees.None? ==> res.0 == []
    ensures tab.treeCache.None? && tab.record.hierarchyTrees.Some? ==>
              res.0 == tab.record.hierarchyTrees.value
  {
    match tab.treeCache
    case Some(trees) => (trees, tab)
    case None =>
      var trees := tab.record.hierarchyTrees.GetOr([]);
      (trees, tab.(treeCache := Some(trees)))
  }

  /** Once computed, the tree list is never asked for again: whatever the
      record driver would answer later, the tab returns the first list and its
      state stays as it is. */
  lemma TreeListMemoised(tab: Tab, later: RecordDriver)
    ensures var (first, tab1) := GetTreeList(tab);
            var tab2 := tab1.(record := later);
            GetTreeList(tab2) == (first, tab2)
  {
  }

  /** `isActive()`: the tab is shown iff the record belongs to some tree. */
  function IsActive(tab: Tab): (res: (bool, Tab))
    ensures res.0 <==> |GetTreeList(tab).0| > 0
    ensures res.1 == GetTreeList(tab).1
  {
    var (trees, tab1) := GetTreeList(tab);
    (|trees| > 0, tab1)
  }

  /** For a freshly constructed tab, `isActive()` is false exactly when the
      record driver reports no trees, either by an absent answer or by an
      empty list. */
  lemma InactiveIffNoTrees(record: RecordDriver, request: Option<Request>, config: Config)
    ensures !IsActive(NewTab(record, request, config)).0 <==>
              record.hierarchyTrees.None? || record.hierarchyTrees.value == []
  {
  }

  // ---------------------------------------------------------------------
  // getActiveTree
  // ---------------------------------------------------------------------

  /** `getPost('hierarchy', getQuery('hierarchy', false))`, or `false` with no
      request: a POST parameter that is present wins, even when it is falsy;
      otherwise the query parameter; `None` stands for `false`. */
  function RequestedHierarchy(request: Option<Request>): Option<string> {
    match request
    case None => None
    case Some(req) => if req.post.Some? then req.post else req.query
  }

  /** The POST value shadows the query value, and without a request nothing
      is requested. */
  lemma PostShadowsQuery(post: string, query: Option<string>)
    ensures RequestedHierarchy(Some(Request(Some(post), query))) == Some(post)
    ensures RequestedHierarchy(Some(Request(None, query))) == query
    ensures RequestedHierarchy(None) == None
  {
  }

  /** PHP truthiness of the requested value (`false` when absent). */
  predicate ParamTruthy(p: Option<string>) {
    p.Some? && Truthy(p.value)
  }

  /** The resolution rule of `getActiveTree()` once the list and the requested
      value are known. With one tree, or nothing truthy requested, the first
      tree id in driver order wins; on an empty list that index is undefined
      and PHP yields null, here `None`. Otherwise the requested value is
      returned as it is, whether or not it names a tree. */
  function ResolveActiveTree(trees: TreeList, requested: Option<string>): (r: Option<string>)
    ensures |trees| == 1 ==> r == Some(trees[0].0)
    ensures !ParamTruthy(requested) && |trees| > 0 ==> r == Some(trees[0].0)
    ensures |trees| != 1 && ParamTruthy(requested) ==> r == requested
    ensures r.None? <==> |trees| == 0 && !ParamTruthy(requested)
  {
    if |trees| == 1 || !ParamTruthy(requested) then
      if |trees| == 0 then None else Some(trees[0].0)
    else
      requested
  }

  /** `getActiveTree()`: resolves the active tree from the (memoised) tree
      list and the request. */
  function GetActiveTree(tab: Tab): (res: (Option<string>, Tab))
    ensures res.1 == GetTreeList(tab).1
    ensures res.0 == ResolveActiveTree(GetTreeList(tab).0, RequestedHierarchy(tab.request))
  {
    var (trees, tab1) := GetTreeList(tab);
    (ResolveActiveTree(trees, RequestedHierarchy(tab.request)), tab1)
  }

  /** With exactly one tree, the request has no say: every request yields that
      tree's id. */
  lemma SingleTreeIgnoresRequest(tab: Tab, other: Option<Request>)
    requires |GetTreeList(tab).0| == 1
    ensures GetActiveTree(tab).0 == GetActiveTree(tab.(request := other)).0
    ensures GetActiveTree(tab).0 == Some(GetTreeList(tab).0[0].0)
  {
  }

  /** The active tree is always a tree of the list or the requested value
      itself; and when nothing truthy was requested, or the request names a
      tree, it is a tree of the list (whenever the list is non-empty). */
  lemma ActiveTreeOrigin(trees: TreeList, requested: Option<string>)
    ensures var r := ResolveActiveTree(trees, requested);
            r.Some? ==> r.value in Keys(trees) || r == requested
    ensures var r := ResolveActiveTree(trees, requested);
            |trees| > 0 && (!ParamTruthy(requested) || requested.value in Keys(trees)) ==>
              r.Some? && r.value in Keys(trees)
  {
    if |trees| > 0 {
      assert trees[0].0 in Keys(trees);
    }
  }

  /** The first tree is chosen by position, not by sorting: with no request,
      the active tree of a list is its first id, even when a later id is
      smaller. */
  lemma ActiveTreeFollowsDriverOrder()
    ensures ResolveActiveTree([("b", "B"), ("a", "A")], None) == Some("b")
    ensures ResolveActiveTree([("a", "A"), ("b", "B")], Some("b")) == Some("b")
    ensures ResolveActiveTree([("a", "A"), ("b", "B")], Some("0")) == Some("a")
    ensures ResolveActiveTree([("a", "A"), ("b", "B")], Some("zzz")) == Some("zzz")
    ensures ResolveActiveTree([], Some("")) == None
  {
  }

  // ---------------------------------------------------------------------
  // getFullHierarchySetting
  // ---------------------------------------------------------------------

  /** A hierarchy driver exists and its `fullHierarchyRecordView` setting is
      unset or truthy. */
  predicate DriverWantsFullTree(driver: Option<HierarchyDriver>) {
    driver.Some? &&
    (driver.value.fullHierarchyRecordView.None? ||
     ScalarTruthy(driver.value.fullHierarchyRecordView.value))
  }

  /** PHP's `$activeTree == $uniqueId`. Two strings compare as strings. A
      null active tree is compared with a string by first turning null into
      "", so it equals only the empty id; in particular null != "0". */
  function ActiveMatchesId(active: Option<string>, id: string): (r: bool)
    ensures r <==> active.GetOr("") == id
    ensures active.None? ==> (r <==> id == "")
  {
    match active
    case Some(a) => a == id
    case None => |id| == 0
  }

  /** The loose comparison on the cases that matter: a null active tree
      matches "" but not the falsy id "0" and not any other id. */
  lemma NullActiveTreeComparison(id: string)
    ensures ActiveMatchesId(None, "")
    ensures !ActiveMatchesId(None, "0")
    ensures ActiveMatchesId(None, id) ==> !Truthy(id)
    ensures ActiveMatchesId(Some(id), id)
  {
  }

  /** `getFullHierarchySetting()`: the full tree is shown when the driver asks
      for it (setting unset or truthy), and otherwise, also when there is no
      driver at all, exactly when the active tree is the record itself. The
      active tree, and so the tree-list cache, is consulted only in the second
      case. */
  function GetFullHierarchySetting(tab: Tab): (res: (bool, Tab))
    ensures DriverWantsFullTree(tab.record.hierarchyDriver) ==> res == (true, tab)
    ensures !DriverWantsFullTree(tab.record.hierarchyDriver) ==>
              res.1 == GetActiveTree(tab).1 &&
              (res.0 <==> ActiveMatchesId(GetActiveTree(tab).0, tab.record.uniqueId))
  {
    if DriverWantsFullTree(tab.record.hierarchyDriver) then
      (true, tab)
    else
      var (active, tab1) := GetActiveTree(tab);
      (ActiveMatchesId(active, tab.record.uniqueId), tab1)
  }

  /** A partial tree is chosen only when a driver explicitly set
      `fullHierarchyRecordView` to a falsy value, or there is no driver, and
      the active tree is not the record itself. */
  lemma PartialTreeOnlyWhenAllowed(tab: Tab)
    ensures !GetFullHierarchySetting(tab).0 <==>
              (tab.record.hierarchyDriver.None? ||
               (tab.record.hierarchyDriver.value.fullHierarchyRecordView.Some? &&
                !ScalarTruthy(tab.record.hierarchyDriver.value.fullHierarchyRecordView.value))) &&
              !ActiveMatchesId(GetActiveTree(tab).0, tab.record.uniqueId)
  {
  }

  /** Without a hierarchy driver the decision does not stop at `false`: it
      falls through to comparing the active tree with the record's id. */
  lemma NoDriverFallsThrough(tab: Tab)
    requires tab.record.hierarchyDriver.None?
    ensures GetFullHierarchySetting(tab).0 <==>
              ActiveMatchesId(GetActiveTree(tab).0, tab.record.uniqueId)
  {
  }

  /** Worked cases: an unset setting means the full tree whatever the request;
      an explicit `false` gives the full tree at the tree's top record and a
      partial tree elsewhere. */
  lemma FullHierarchyExamples(render: (string, string, Option<string>) -> string)
    ensures var t := Tab(RecordDriver(Some([("a", "A"), ("b", "B")]),
                                      Some(HierarchyDriver(None, render)), "x"),
                         Some(Request(Some("b"), None)), Config(None, None), None);
            GetFullHierarchySetting(t).0
    ensures var t := Tab(RecordDriver(Some([("a", "A"), ("b", "B")]),
                                      Some(HierarchyDriver(Some(Bool(false)), render)), "b"),
                         Some(Request(Some("b"), None)), Config(None, None), None);
            GetFullHierarchySetting(t).0
    ensures var t := Tab(RecordDriver(Some([("a", "A"), ("b", "B")]),
                                      Some(HierarchyDriver(Some(Bool(false)), render)), "a"),
                         Some(Request(Some("b"), None)), Config(None, None), None);
            !GetFullHierarchySetting(t).0
  {
  }

  /** With no trees, no driver and no request the active tree is null: the
      full tree is shown only for a record whose id is "", and a record with
      id "0" gets the partial tree. With a request the record "0" still gets
      the partial tree, since a truthy requested id is never "0". */
  lemma NullActiveTreeExamples(request: Option<Request>)
    ensures GetActiveTree(Tab(RecordDriver(None, None, "0"), None, Config(None, None), None)).0 == None
    ensures !GetFullHierarchySetting(Tab(RecordDriver(None, None, "0"), None, Config(None, None), None)).0
    ensures GetFullHierarchySetting(Tab(RecordDriver(None, None, ""), None, Config(None, None), None)).0
    ensures !GetFullHierarchySetting(Tab(RecordDriver(None, None, "0"), request, Config(None, None), None)).0
  {
  }

  // ---------------------------------------------------------------------
  // renderTree
  // ---------------------------------------------------------------------

  /** The base URL as it is substituted: `rtrim($baseUrl, '/')`. */
  function TrimmedBaseUrl(baseUrl: string): (r: string)
    ensures r <= baseUrl
    ensures |r| == 0 || r[|r| - 1] != '/'
    ensures AllFrom(baseUrl, |r|, '/')
  {
    RTrim(baseUrl, '/')
  }

  /** `renderTree($baseUrl, $id, $context)`: the tree id is the given one, or
      the active tree when none is given (only then is the tree list
      consulted). Without a hierarchy driver the result is empty; otherwise it
      is the driver's "List" markup for that tree, with every placeholder
      occurrence the left-to-right, non-overlapping scan meets replaced by the
      trimmed base URL. */
  function RenderTree(tab: Tab, baseUrl: string, id: Option<string>, context: string): (res: (string, Tab))
    ensures id.Some? ==> res.1 == tab
    ensures id.None? ==> res.1 == GetActiveTree(tab).1
    ensures tab.record.hierarchyDriver.None? ==> res.0 == ""
    ensures tab.record.hierarchyDriver.Some? ==>
              var treeId := if id.Some? then id else GetActiveTree(tab).0;
              var markup := tab.record.hierarchyDriver.value.render(context, ListMode, treeId);
              res.0 == Join(Split(markup, BaseUrlPlaceholder), TrimmedBaseUrl(baseUrl))
  {
    var (treeId, tab1) := if id.Some? then (id, tab) else GetActiveTree(tab);
    match tab.record.hierarchyDriver
    case None => ("", tab1)
    case Some(driver) =>
      var markup := driver.render(context, ListMode, treeId);
      ReplaceAllIsJoinOfSplit(markup, BaseUrlPlaceholder, TrimmedBaseUrl(baseUrl));
      (ReplaceAll(markup, BaseUrlPlaceholder, TrimmedBaseUrl(baseUrl)), tab1)
  }

  /** Markup without the placeholder comes back from `renderTree` unchanged. */
  lemma RenderWithoutPlaceholder(tab: Tab, baseUrl: string, id: Option<string>, context: string)
    requires tab.record.hierarchyDriver.Some?
    requires var treeId := if id.Some? then id else GetActiveTree(tab).0;
             !Contains(tab.record.hierarchyDriver.value.render(context, ListMode, treeId), BaseUrlPlaceholder)
    ensures var treeId := if id.Some? then id else GetActiveTree(tab).0;
            RenderTree(tab, baseUrl, id, context).0 ==
              tab.record.hierarchyDriver.value.render(context, ListMode, treeId)
  {
    var treeId := if id.Some? then id else GetActiveTree(tab).0;
    var markup := tab.record.hierarchyDriver.value.render(context, ListMode, treeId);
    SplitAbsent(markup, BaseUrlPlaceholder);
  }

  /** A given tree id bypasses `getActiveTree()`: the request and the cached
      tree list do not influence the result, and the tab is left as it was. */
  lemma RenderGivenIdIgnoresRequest(tab: Tab, baseUrl: string, id: string, context: string,
                                    otherRequest: Option<Request>, otherCache: Option<TreeList>)
    ensures var other := tab.(request := otherRequest, treeCache := otherCache);
            RenderTree(tab, baseUrl, Some(id), context).0 ==
              RenderTree(other, baseUrl, Some(id), context).0
  {
  }

  /** The rendered tree is the driver's markup cut at the placeholders and
      glued back with the trimmed URL: the cut pieces put back together with
      the placeholder give the markup again, no piece still holds a
      placeholder, and the first cut is at the leftmost placeholder with the
      other pieces the split of the markup after it. So every occurrence the
      left-to-right, non-overlapping scan meets is replaced and nothing else
      changes. */
  lemma RenderSubstitutesPlaceholders(tab: Tab, baseUrl: string, id: Option<string>, context: string)
    requires tab.record.hierarchyDriver.Some?
    ensures var treeId := if id.Some? then id else GetActiveTree(tab).0;
            var markup := tab.record.hierarchyDriver.value.render(context, ListMode, treeId);
            var pieces := Split(markup, BaseUrlPlaceholder);
            && RenderTree(tab, baseUrl, id, context).0 == Join(pieces, TrimmedBaseUrl(baseUrl))
            && Join(pieces, BaseUrlPlaceholder) == markup
            && (forall k :: 0 <= k < |pieces| ==> !Contains(pieces[k], BaseUrlPlaceholder))
            && (|pieces| > 1 ==>
                  && OccursAt(markup, BaseUrlPlaceholder, |pieces[0]|)
                  && (forall i :: 0 <= i < |pieces[0]| ==> !OccursAt(markup, BaseUrlPlaceholder, i))
                  && |pieces[0]| + |BaseUrlPlaceholder| <= |markup|
                  && pieces[1..] == Split(markup[|pieces[0]| + |BaseUrlPlaceholder|..], BaseUrlPlaceholder))
  {
    var treeId := if id.Some? then id else GetActiveTree(tab).0;
    var markup := tab.record.hierarchyDriver.value.render(context, ListMode, treeId);
    JoinSplit(markup, BaseUrlPlaceholder);
    SplitPiecesNeedleFree(markup, BaseUrlPlaceholder);
    SplitCutsAtFirstOccurrence(markup, BaseUrlPlaceholder);
  }

  /** Markup with a placeholder, "/a|" and a second placeholder becomes the
      URL, "/a|" and the URL again. */
  lemma TwoPlaceholders(p: string, url: string)
    requires |p| > 0 && p[0] != '/' && p[0] != 'a' && p[0] != '|'
    ensures ReplaceAll(p + "/a|" + p, p, url) == url + "/a|" + url
  {
    var plain := "/a|";
    calc {
      ReplaceAll(p + plain + p, p, url);
      { assert p + plain + p == p + (plain + p); ReplaceAllAtNeedle(p, plain + p, url); }
      url + ReplaceAll(plain + p, p, url);
      { ReplaceAllKeepsPlainText(plain, p, p, url); }
      url + (plain + ReplaceAll(p, p, url));
      { ReplaceAllAtNeedle(p, [], url); assert p + [] == p; }
      url + plain + url;
    }
  }

  /** The placeholder substitution on a worked case: "http://host/base/"
      loses its trailing slash, and both placeholders are replaced by it. */
  lemma SubstitutionExample()
    ensures ReplaceAll(BaseUrlPlaceholder + "/a|" + BaseUrlPlaceholder, BaseUrlPlaceholder,
                       TrimmedBaseUrl("http://host/base/")) ==
              "http://host/base/a|http://host/base"
  {
    var url := "http://host/base";
    RTrimUnique("http://host/base/", '/', url);
    TwoPlaceholders(BaseUrlPlaceholder, url);
  }

  /** Text after an occurrence that is too short to hold another one is kept
      as it is. */
  lemma ShortTailKept(p: string, tail: string, url: string)
    requires |tail| < |p|
    ensures ReplaceAll(p + tail, p, url) == url + tail
  {
    ReplaceAllAtNeedle(p, tail, url);
    NotContainsShorter(tail, p);
    ReplaceAllAbsent(tail, p, url);
  }

  /** The placeholder starts and ends with "%%%%", so two occurrences can
      overlap: the markup below holds one at index 0 and one at index 19. Like
      `str_replace`, the substitution replaces the first and resumes after it,
      so the overlapping second occurrence is kept as text. */
  lemma OverlappingPlaceholderExample(url: string)
    ensures OccursAt(BaseUrlPlaceholder + "VUFIND-BASE-URL%%%%", BaseUrlPlaceholder, 0)
    ensures OccursAt(BaseUrlPlaceholder + "VUFIND-BASE-URL%%%%", BaseUrlPlaceholder, 19)
    ensures ReplaceAll(BaseUrlPlaceholder + "VUFIND-BASE-URL%%%%", BaseUrlPlaceholder, url) ==
              url + "VUFIND-BASE-URL%%%%"
  {
    OverlapOccurrences();
    ShortTailKept(BaseUrlPlaceholder, "VUFIND-BASE-URL%%%%", url);
  }

  /** The two overlapping occurrences of the example markup. */
  lemma OverlapOccurrences()
    ensures OccursAt(BaseUrlPlaceholder + "VUFIND-BASE-URL%%%%", BaseUrlPlaceholder, 0)
    ensures OccursAt(BaseUrlPlaceholder + "VUFIND-BASE-URL%%%%", BaseUrlPlaceholder, 19)
  {
    var tail := "VUFIND-BASE-URL%%%%";
    assert BaseUrlPlaceholder == "%%%%" + tail;
    assert BaseUrlPlaceholder[19..] == "%%%%";
    SelfOverlap(BaseUrlPlaceholder, "%%%%", tail);
  }

  /** A needle `p` that both starts with `tail`'s prefix `c` and ends with
      `c` occurs in `p + tail` at the start and again `|c|` characters
      before the end of its first copy. */
  lemma SelfOverlap(p: string, c: string, tail: string)
    requires p == c + tail
    requires |c| <= |p| && p[|p| - |c|..] == c
    ensures OccursAt(p + tail, p, 0)
    ensures OccursAt(p + tail, p, |p| - |c|)
  {
    var s := p + tail;
    var k := |p| - |c|;
    assert s[0..|p|] == p;
    assert s[k..|p|] == p[k..];
    assert s[|p|..|s|] == tail;
    assert s[k..k + |p|] == s[k..|p|] + s[|p|..|s|];
  }

  /** `renderTree("http://host/base/", "t1")` on a driver whose markup for
      "t1" holds two placeholders. */
  lemma RenderExample(tab: Tab)
    requires tab.record.hierarchyDriver.Some?
    requires tab.record.hierarchyDriver.value.render(DefaultContext, ListMode, Some("t1")) ==
               BaseUrlPlaceholder + "/a|" + BaseUrlPlaceholder
    ensures RenderTree(tab, "http://host/base/", Some("t1"), DefaultContext).0 ==
              "http://host/base/a|http://host/base"
  {
    SubstitutionExample();
  }

  // ---------------------------------------------------------------------
  // searchActive / getSearchLimit
  // ---------------------------------------------------------------------

  /** `searchActive()`: tree search is on unless `Hierarchy.search` is set to
      a falsy value. */
  function SearchActive(tab: Tab): (r: bool)
    ensures !r <==> tab.config.search.Some? && !ScalarTruthy(tab.config.search.value)
  {
    tab.config.search.None? || ScalarTruthy(tab.config.search.value)
  }

  /** `getSearchLimit()`: the configured `Hierarchy.treeSearchLimit`, or -1
      (no limit) when it is unset. */
  function GetSearchLimit(tab: Tab): (r: int)
    ensures tab.config.treeSearchLimit.Some? ==> r == tab.config.treeSearchLimit.value
    ensures tab.config.treeSearchLimit.None? ==> r == -1
  {
    tab.config.treeSearchLimit.GetOr(-1)
  }

  /** Without a `[Hierarchy]` section, search is on and unlimited. */
  lemma ConfigDefaults(tab: Tab)
    requires tab.config == Config(None, None)
    ensures SearchActive(tab) && GetSearchLimit(tab) == -1
  {
  }
}
