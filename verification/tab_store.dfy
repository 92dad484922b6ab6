/** The tab store: an ordered list of open navigation tabs plus the active path.
    Every operation is a pure function of the state; a navigation that the store
    asks the router for (`router.push`) is returned as `nav` and never changes
    `current` by itself (only `SetCurrentTab` does). */
module TabStore {
  import opened Wrappers
  import opened Seqs

  /** The protected home path hard-coded in the bulk close operations. */
  const Home: string := "/home"

  /** An open tab: a normalized route, of which only the path and the
      `meta.withoutTab` flag are read. */
  datatype Tab = Tab(path: string, withoutTab: bool)

  datatype TabState = TabState(tabs: seq<Tab>, current: string)

  /** The state after an operation and the path it navigates to, if any. */
  datatype Step = Step(state: TabState, nav: Option<string>)

  /** `closeTab` reads `.path` of a neighbour that does not exist. */
  datatype CloseError = NoNeighbour

  /** The state the store starts from (and is reset to). */
  const Initial: TabState := TabState([], "")

  /** No two tabs share a path. */
  ghost predicate DistinctPaths(tabs: seq<Tab>) {
    forall i, j | 0 <= i < j < |tabs| :: tabs[i].path != tabs[j].path
  }

  /** JavaScript indexing `tabs[k]`: `undefined` outside the list. */
  function At(tabs: seq<Tab>, k: int): (r: Option<Tab>)
    ensures r.Some? <==> 0 <= k < |tabs|
    ensures r.Some? ==> r.value == tabs[k]
  {
    if 0 <= k < |tabs| then Some(tabs[k]) else None
  }

  /** Makes `path` the active one; the tab list is not touched. */
  function SetCurrentTab(s: TabState, path: string): (r: TabState)
    ensures r.tabs == s.tabs
    ensures r.current == path
  {
    s.(current := path)
  }

  /** Whether some tab is open at `path` (`Array.prototype.some`). */
  function HasExistTab(tabs: seq<Tab>, path: string): (b: bool)
    ensures b <==> exists i | 0 <= i < |tabs| :: tabs[i].path == path
  {
    if |tabs| == 0 then false
    else if tabs[0].path == path then true
    else
      var b := HasExistTab(tabs[1..], path);
      assert forall i | 1 <= i < |tabs| :: tabs[i] == tabs[1..][i - 1];
      b
  }

  /** Index of the first tab at `path`, or -1 (`Array.prototype.findIndex`). */
  function GetTabIndex(tabs: seq<Tab>, path: string): (i: int)
    ensures -1 <= i < |tabs|
    ensures i == -1 ==> forall j | 0 <= j < |tabs| :: tabs[j].path != path
    ensures 0 <= i ==> tabs[i].path == path
    ensures 0 <= i ==> forall j | 0 <= j < i :: tabs[j].path != path
  {
    if |tabs| == 0 then -1
    else if tabs[0].path == path then 0
    else
      var k := GetTabIndex(tabs[1..], path);
      assert forall j | 1 <= j < |tabs| :: tabs[j] == tabs[1..][j - 1];
      if k == -1 then -1 else k + 1
  }

  /** The small-list guard of the bulk closes: a single tab, or two tabs when
      the anchor is not the home path. */
  function IsTabReturn(tabs: seq<Tab>, path: string): (b: bool)
    ensures b ==> 0 < |tabs| <= 2
    ensures |tabs| == 2 ==> (b <==> path != Home)
    ensures |tabs| != 2 ==> (b <==> |tabs| == 1)
  {
    |tabs| == 1 || (|tabs| == 2 && path != Home)
  }

  /** The first registered route at `path` (`Array.prototype.find`). */
  function FindRoute(routes: seq<Tab>, path: string): (r: Option<Tab>)
    ensures r.None? <==> forall j | 0 <= j < |routes| :: routes[j].path != path
    ensures r.Some? ==> r.value in routes && r.value.path == path
    ensures r.Some? ==> r.value == routes[GetTabIndex(routes, path)]
  {
    var i := GetTabIndex(routes, path);
    if i == -1 then None else Some(routes[i])
  }

  /** Appends the registered route at the configured home path, if there is one.
      The router's registry and the configured path are parameters. */
  function InitTab(s: TabState, registry: seq<Tab>, homePath: string): (r: TabState)
    ensures r.current == s.current
    ensures (forall j | 0 <= j < |registry| :: registry[j].path != homePath) ==> r == s
    ensures (exists j | 0 <= j < |registry| :: registry[j].path == homePath) ==>
      && |r.tabs| == |s.tabs| + 1
      && r.tabs[..|s.tabs|] == s.tabs
      && r.tabs[|s.tabs|].path == homePath
      && exists k | 0 <= k < |registry| ::
           && r.tabs[|s.tabs|] == registry[k]
           && forall j | 0 <= j < k :: registry[j].path != homePath
  {
    match FindRoute(registry, homePath)
    case Some(home) => s.(tabs := s.tabs + [home])
    case None => s
  }

  /** Opens a tab for `route` unless it is flagged `withoutTab` or its path is
      already open. */
  function AddTab(s: TabState, route: Tab): (r: TabState)
    ensures r.current == s.current
    ensures route.withoutTab ==> r == s
    ensures (exists i | 0 <= i < |s.tabs| :: s.tabs[i].path == route.path) ==> r == s
    ensures !route.withoutTab && (forall i | 0 <= i < |s.tabs| :: s.tabs[i].path != route.path) ==>
      && |r.tabs| == |s.tabs| + 1
      && r.tabs[..|s.tabs|] == s.tabs
      && r.tabs[|s.tabs|] == route
  {
    if route.withoutTab then s
    else if HasExistTab(s.tabs, route.path) then s
    else s.(tabs := s.tabs + [route])
  }

  /** The filter test of `closeTab`: every tab except those at `path`. */
  function Unless(path: string): Tab -> bool {
    (t: Tab) => t.path != path
  }

  /** The filter test of `closeOtherTabs`: tabs at `p` or at `q`. */
  function OneOf(p: string, q: string): Tab -> bool {
    (t: Tab) => t.path == p || t.path == q
  }

  /** The filter test of `closeAllTabs`: tabs at the home path. */
  function AtHome(): Tab -> bool {
    (t: Tab) => t.path == Home
  }

  /** Closes every tab at `path`. When `path` is active, first navigates to the
      tab after the (first) closed one, or else to the one before it; when that
      neighbour does not exist the source throws, modelled as `Failure`. */
  function CloseTab(s: TabState, path: string): (r: Result<Step, CloseError>)
    ensures r.Failure? <==>
      path == s.current && (|s.tabs| == 0 || (|s.tabs| == 1 && s.tabs[0].path == path))
    ensures r.Success? ==> r.value.state.current == s.current
    ensures r.Success? ==> SubSeq(r.value.state.tabs, s.tabs)
    ensures r.Success? ==> forall t :: t in r.value.state.tabs <==> t in s.tabs && t.path != path
    ensures r.Success? ==>
      forall t :: multiset(r.value.state.tabs)[t] == if t.path == path then 0 else multiset(s.tabs)[t]
    ensures r.Success? && path != s.current ==> r.value.nav == None
    ensures r.Success? && path == s.current ==>
      var i := GetTabIndex(s.tabs, path);
      && r.value.nav.Some?
      && (i + 1 < |s.tabs| ==> r.value.nav.value == s.tabs[i + 1].path)
      && (i + 1 == |s.tabs| ==> r.value.nav.value == s.tabs[i - 1].path)
  {
    var i := GetTabIndex(s.tabs, path);
    var kept := s.(tabs := Filter(s.tabs, Unless(path)));
    if path == s.current then
      match At(s.tabs, i + 1)
      case Some(next) => Success(Step(kept, Some(next.path)))
      case None =>
        match At(s.tabs, i - 1)
        case Some(prev) => Success(Step(kept, Some(prev.path)))
        case None => Failure(NoNeighbour)
    else
      Success(Step(kept, None))
  }

  /** Keeps only the tabs at `path` and at the home path, navigating to `path`
      first when it is not active. */
  function CloseOtherTabs(s: TabState, path: string): (r: Step)
    ensures r.state.current == s.current
    ensures IsTabReturn(s.tabs, path) ==> r == Step(s, None)
    ensures !IsTabReturn(s.tabs, path) ==>
      && SubSeq(r.state.tabs, s.tabs)
      && (forall t :: t in r.state.tabs <==> t in s.tabs && (t.path == path || t.path == Home))
      && (forall t :: multiset(r.state.tabs)[t] ==
            if t.path == path || t.path == Home then multiset(s.tabs)[t] else 0)
      && (r.nav == None <==> path == s.current)
      && (r.nav.Some? ==> r.nav.value == path)
  {
    if IsTabReturn(s.tabs, path) then Step(s, None)
    else
      var kept := s.(tabs := Filter(s.tabs, OneOf(path, Home)));
      if path == s.current then Step(kept, None) else Step(kept, Some(path))
  }

  /** Whether `closeLeftTabs(path)` removes anything: not guarded, and the tab
      just left of the anchor exists and is not the home tab. */
  predicate ClosesLeft(tabs: seq<Tab>, path: string) {
    var i := GetTabIndex(tabs, path);
    !IsTabReturn(tabs, path) && 1 <= i && tabs[i - 1].path != Home
  }

  /** Removes the tabs left of the anchor except the first one. Navigates to the
      anchor when it is not active and the active path was among `tabs[..i]`. */
  function CloseLeftTabs(s: TabState, path: string): (r: Step)
    ensures r.state.current == s.current
    ensures !ClosesLeft(s.tabs, path) ==> r == Step(s, None)
    ensures ClosesLeft(s.tabs, path) ==>
      var i := GetTabIndex(s.tabs, path);
      && |r.state.tabs| == |s.tabs| - i + 1
      && r.state.tabs[0] == s.tabs[0]
      && r.state.tabs[1..] == s.tabs[i..]
      && (r.nav.Some? <==>
            path != s.current && exists j | 0 <= j < i :: s.tabs[j].path == s.current)
      && (r.nav.Some? ==> r.nav.value == path)
  {
    if IsTabReturn(s.tabs, path) then Step(s, None)
    else
      var i := GetTabIndex(s.tabs, path);
      match At(s.tabs, i - 1)
      case Some(left) =>
        if left.path != Home then
          var removed := s.tabs[..i];
          var rest := s.tabs[i..];
          var nav := if path != s.current && GetTabIndex(removed, s.current) != -1
                     then Some(path) else None;
          Step(s.(tabs := [s.tabs[0]] + rest), nav)
        else Step(s, None)
      case None => Step(s, None)
  }

  /** Whether `closeRightTabs(path)` removes anything: not guarded, and the tab
      just right of the anchor exists. */
  predicate ClosesRight(tabs: seq<Tab>, path: string) {
    !IsTabReturn(tabs, path) && GetTabIndex(tabs, path) + 1 < |tabs|
  }

  /** Removes every tab right of the anchor, navigating to the anchor first when
      it is not active. */
  function CloseRightTabs(s: TabState, path: string): (r: Step)
    ensures r.state.current == s.current
    ensures !ClosesRight(s.tabs, path) ==> r == Step(s, None)
    ensures ClosesRight(s.tabs, path) ==>
      var i := GetTabIndex(s.tabs, path);
      && |r.state.tabs| == i + 1
      && r.state.tabs == s.tabs[..|r.state.tabs|]
      && (i >= 0 ==> r.state.tabs[i].path == path)
      && (r.nav == None <==> path == s.current)
      && (r.nav.Some? ==> r.nav.value == path)
  {
    if IsTabReturn(s.tabs, path) then Step(s, None)
    else
      var i := GetTabIndex(s.tabs, path);
      if At(s.tabs, i + 1).Some? then
        var nav := if path != s.current then Some(path) else None;
        Step(s.(tabs := s.tabs[..i + 1]), nav)
      else Step(s, None)
  }

  /** Keeps only the home tab(s) and navigates home, unless a single tab is open. */
  function CloseAllTabs(s: TabState): (r: Step)
    ensures r.state.current == s.current
    ensures |s.tabs| == 1 ==> r == Step(s, None)
    ensures |s.tabs| != 1 ==>
      && SubSeq(r.state.tabs, s.tabs)
      && (forall t :: t in r.state.tabs <==> t in s.tabs && t.path == Home)
      && (forall t :: multiset(r.state.tabs)[t] == if t.path == Home then multiset(s.tabs)[t] else 0)
      && r.nav == Some(Home)
  {
    if |s.tabs| == 1 then Step(s, None)
    else Step(s.(tabs := Filter(s.tabs, AtHome())), Some(Home))
  }
}
