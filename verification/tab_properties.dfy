/** Properties of the tab store that relate several operations or hold over
    whole runs: distinct paths are preserved, the page shown after a close is
    still a tab, the bulk closes are idempotent, and opening then closing a
    fresh tab undoes itself. */
module TabProperties {
  import opened Wrappers
  import opened Seqs
  import opened TabStore

  /** A subsequence of a list with distinct paths has distinct paths. */
  lemma {:induction false} SubSeqKeepsDistinctPaths(a: seq<Tab>, b: seq<Tab>)
    requires SubSeq(a, b)
    requires DistinctPaths(b)
    ensures DistinctPaths(a)
    decreases |b|
  {
    if |a| == 0 {
    } else if a[0] == b[0] && SubSeq(a[1..], b[1..]) {
      SubSeqKeepsDistinctPaths(a[1..], b[1..]);
      SubSeqMembers(a[1..], b[1..]);
      forall i, j | 0 <= i < j < |a| ensures a[i].path != a[j].path {
        assert a[j] == a[1..][j - 1];
        if i == 0 {
          assert a[j] in b[1..];
          var k :| 0 <= k < |b[1..]| && b[1..][k] == a[j];
          assert b[k + 1] == a[j];
        } else {
          assert a[i] == a[1..][i - 1];
        }
      }
    } else {
      SubSeqKeepsDistinctPaths(a, b[1..]);
    }
  }

  /** The page the router shows once the step's navigation settles. */
  function Shown(step: Step): string {
    match step.nav
    case Some(p) => p
    case None => step.state.current
  }

  // ---------------------------------------------------------------- addTab

  /** Adding the same route twice is adding it once. */
  lemma AddTabIdempotent(s: TabState, route: Tab)
    ensures AddTab(AddTab(s, route), route) == AddTab(s, route)
  {
    var r := AddTab(s, route);
    if !route.withoutTab && r != s {
      assert r.tabs[|s.tabs|].path == route.path;
    }
  }

  /** After `addTab` the route's path is open, unless it is flagged `withoutTab`. */
  lemma AddTabOpensPath(s: TabState, route: Tab)
    requires !route.withoutTab
    ensures HasExistTab(AddTab(s, route).tabs, route.path)
  {
    var r := AddTab(s, route);
    if r == s {
    } else {
      assert r.tabs[|s.tabs|].path == route.path;
    }
  }

  lemma AddTabKeepsDistinctPaths(s: TabState, route: Tab)
    requires DistinctPaths(s.tabs)
    ensures DistinctPaths(AddTab(s, route).tabs)
  {
    var r := AddTab(s, route);
    if r != s {
      forall i, j | 0 <= i < j < |r.tabs| ensures r.tabs[i].path != r.tabs[j].path {
        if j == |s.tabs| {
          assert r.tabs[i] == s.tabs[i];
        } else {
          assert r.tabs[i] == s.tabs[i] && r.tabs[j] == s.tabs[j];
        }
      }
    }
  }

  /** Closing a freshly opened inactive tab restores the state before it was opened. */
  lemma AddThenCloseRestores(s: TabState, route: Tab)
    requires !route.withoutTab
    requires !HasExistTab(s.tabs, route.path)
    requires route.path != s.current
    ensures CloseTab(AddTab(s, route), route.path) == Success(Step(s, None))
  {
    var added := AddTab(s, route);
    var keep := Unless(route.path);
    assert added.tabs == s.tabs + [route];
    FilterAppend(s.tabs, [route], keep);
    assert forall i | 0 <= i < |s.tabs| :: keep(s.tabs[i]);
    FilterKeepsAll(s.tabs, keep);
    assert !keep(route);
    assert Filter([route], keep) == [];
    assert Filter(added.tabs, keep) == s.tabs;
    assert CloseTab(added, route.path) == Success(Step(added.(tabs := s.tabs), None));
  }

  // ---------------------------------------------------------------- initTab

  /** `initTab` keeps paths distinct exactly when it does not append a second
      tab at the home path. */
  lemma InitTabDistinctPaths(s: TabState, registry: seq<Tab>, homePath: string)
    requires DistinctPaths(s.tabs)
    ensures DistinctPaths(InitTab(s, registry, homePath).tabs) <==>
      !(HasExistTab(registry, homePath) && HasExistTab(s.tabs, homePath))
  {
    var r := InitTab(s, registry, homePath);
    if HasExistTab(registry, homePath) {
      var n := |s.tabs|;
      assert forall i | 0 <= i < n :: r.tabs[i] == s.tabs[i];
      if HasExistTab(s.tabs, homePath) {
        var k :| 0 <= k < n && s.tabs[k].path == homePath;
        assert r.tabs[k].path == r.tabs[n].path;
      } else {
        forall i, j | 0 <= i < j < |r.tabs| ensures r.tabs[i].path != r.tabs[j].path {
          if j == n {
            assert r.tabs[i] == s.tabs[i];
          }
        }
      }
    }
  }

  // ---------------------------------------------------------------- closes keep distinct paths

  lemma CloseLeftTabsIsSubSeq(s: TabState, path: string)
    ensures SubSeq(CloseLeftTabs(s, path).state.tabs, s.tabs)
  {
    var r := CloseLeftTabs(s, path);
    if ClosesLeft(s.tabs, path) {
      var i := GetTabIndex(s.tabs, path);
      HeadAndSuffixIsSubSeq(s.tabs, i);
      assert r.state.tabs == [s.tabs[0]] + s.tabs[i..];
    } else {
      SubSeqRefl(s.tabs);
    }
  }

  lemma CloseRightTabsIsSubSeq(s: TabState, path: string)
    ensures SubSeq(CloseRightTabs(s, path).state.tabs, s.tabs)
  {
    var r := CloseRightTabs(s, path);
    if ClosesRight(s.tabs, path) {
      PrefixIsSubSeq(s.tabs, |r.state.tabs|);
    } else {
      SubSeqRefl(s.tabs);
    }
  }

  /** One call into the store's public interface. */
  datatype Op =
    | SetCurrent(path: string)
    | Add(route: Tab)
    | Close(path: string)
    | CloseOthers(path: string)
    | CloseLeft(path: string)
    | CloseRight(path: string)
    | CloseAll

  /** The state after one call. A `closeTab` that throws leaves the state as it
      was; navigation does not change the state. */
  function Apply(s: TabState, op: Op): TabState {
    match op
    case SetCurrent(p) => SetCurrentTab(s, p)
    case Add(route) => AddTab(s, route)
    case Close(p) =>
      (match CloseTab(s, p)
       case Success(step) => step.state
       case Failure(_) => s)
    case CloseOthers(p) => CloseOtherTabs(s, p).state
    case CloseLeft(p) => CloseLeftTabs(s, p).state
    case CloseRight(p) => CloseRightTabs(s, p).state
    case CloseAll => CloseAllTabs(s).state
  }

  /** The state after a sequence of calls. */
  function Run(s: TabState, ops: seq<Op>): TabState
    decreases |ops|
  {
    if |ops| == 0 then s else Run(Apply(s, ops[0]), ops[1..])
  }

  /** Every call except `initTab` keeps tab paths pairwise distinct. */
  lemma ApplyKeepsDistinctPaths(s: TabState, op: Op)
    requires DistinctPaths(s.tabs)
    ensures DistinctPaths(Apply(s, op).tabs)
  {
    var r := Apply(s, op);
    match op
    case SetCurrent(p) =>
    case Add(route) => AddTabKeepsDistinctPaths(s, route);
    case Close(p) =>
      if CloseTab(s, p).Success? {
        SubSeqKeepsDistinctPaths(r.tabs, s.tabs);
      }
    case CloseOthers(p) =>
      if !IsTabReturn(s.tabs, p) {
        SubSeqKeepsDistinctPaths(r.tabs, s.tabs);
      }
    case CloseLeft(p) =>
      CloseLeftTabsIsSubSeq(s, p);
      SubSeqKeepsDistinctPaths(r.tabs, s.tabs);
    case CloseRight(p) =>
      CloseRightTabsIsSubSeq(s, p);
      SubSeqKeepsDistinctPaths(r.tabs, s.tabs);
    case CloseAll =>
      if |s.tabs| != 1 {
        SubSeqKeepsDistinctPaths(r.tabs, s.tabs);
      }
  }

  /** Starting from any state with distinct paths, no sequence of calls opens
      two tabs at one path. */
  lemma {:induction false} RunKeepsDistinctPaths(s: TabState, ops: seq<Op>)
    requires DistinctPaths(s.tabs)
    ensures DistinctPaths(Run(s, ops).tabs)
    decreases |ops|
  {
    if |ops| > 0 {
      ApplyKeepsDistinctPaths(s, ops[0]);
      RunKeepsDistinctPaths(Apply(s, ops[0]), ops[1..]);
    }
  }

  /** The store's lifecycle: from the reset state, `initTab` once, then any
      sequence of calls never opens two tabs at one path. */
  lemma StartupKeepsDistinctPaths(registry: seq<Tab>, homePath: string, ops: seq<Op>)
    ensures DistinctPaths(Run(InitTab(Initial, registry, homePath), ops).tabs)
  {
    var start := InitTab(Initial, registry, homePath);
    assert |start.tabs| <= 1;
    RunKeepsDistinctPaths(start, ops);
  }

  // ---------------------------------------------------------------- the shown page stays open

  /** After closing a tab, the page shown is still an open tab. */
  lemma CloseTabKeepsShownTab(s: TabState, path: string)
    requires DistinctPaths(s.tabs)
    requires HasExistTab(s.tabs, s.current)
    requires CloseTab(s, path).Success?
    ensures HasExistTab(CloseTab(s, path).value.state.tabs, Shown(CloseTab(s, path).value))
  {
    var step := CloseTab(s, path).value;
    var i := GetTabIndex(s.tabs, path);
    var k: int;
    if path != s.current {
      k :| 0 <= k < |s.tabs| && s.tabs[k].path == s.current;
    } else if i + 1 < |s.tabs| {
      k := i + 1;
    } else {
      k := i - 1;
    }
    assert s.tabs[k].path == Shown(step);
    assert s.tabs[k] in s.tabs;
    assert s.tabs[k] in step.state.tabs;
  }

  /** After closing the others, the page shown is still an open tab. */
  lemma CloseOtherTabsKeepsShownTab(s: TabState, path: string)
    requires HasExistTab(s.tabs, path)
    requires HasExistTab(s.tabs, s.current)
    ensures HasExistTab(CloseOtherTabs(s, path).state.tabs, Shown(CloseOtherTabs(s, path)))
  {
    var step := CloseOtherTabs(s, path);
    if !IsTabReturn(s.tabs, path) {
      var k :| 0 <= k < |s.tabs| && s.tabs[k].path == path;
      assert s.tabs[k] in s.tabs;
      assert s.tabs[k] in step.state.tabs;
    }
  }

  /** After closing to the left, the page shown is still an open tab. */
  lemma CloseLeftTabsKeepsShownTab(s: TabState, path: string)
    requires HasExistTab(s.tabs, s.current)
    ensures HasExistTab(CloseLeftTabs(s, path).state.tabs, Shown(CloseLeftTabs(s, path)))
  {
    var step := CloseLeftTabs(s, path);
    if ClosesLeft(s.tabs, path) {
      var i := GetTabIndex(s.tabs, path);
      var k: int;
      if step.nav.Some? || path == s.current {
        k := i;
      } else {
        k :| 0 <= k < |s.tabs| && s.tabs[k].path == s.current;
        assert k >= i;
      }
      assert step.state.tabs[k - i + 1] == s.tabs[k];
    }
  }

  /** After closing to the right, the page shown is still an open tab. */
  lemma CloseRightTabsKeepsShownTab(s: TabState, path: string)
    requires HasExistTab(s.tabs, path)
    requires HasExistTab(s.tabs, s.current)
    ensures HasExistTab(CloseRightTabs(s, path).state.tabs, Shown(CloseRightTabs(s, path)))
  {
    var step := CloseRightTabs(s, path);
    if ClosesRight(s.tabs, path) {
      var i := GetTabIndex(s.tabs, path);
      assert step.state.tabs[i].path == Shown(step);
    }
  }

  /** After closing all, the page shown is still an open tab, provided a home tab was open. */
  lemma CloseAllTabsKeepsShownTab(s: TabState)
    requires HasExistTab(s.tabs, Home)
    requires HasExistTab(s.tabs, s.current)
    ensures HasExistTab(CloseAllTabs(s).state.tabs, Shown(CloseAllTabs(s)))
  {
    var step := CloseAllTabs(s);
    if |s.tabs| != 1 {
      var k :| 0 <= k < |s.tabs| && s.tabs[k].path == Home;
      assert s.tabs[k] in s.tabs;
      assert s.tabs[k] in step.state.tabs;
    }
  }

  // ---------------------------------------------------------------- idempotence of the bulk closes

  lemma CloseOtherTabsIdempotent(s: TabState, path: string)
    ensures var once := CloseOtherTabs(s, path).state;
            CloseOtherTabs(once, path).state == once
  {
    if !IsTabReturn(s.tabs, path) {
      FilterIdempotent(s.tabs, OneOf(path, Home));
    }
  }

  lemma CloseLeftTabsIdempotent(s: TabState, path: string)
    ensures var once := CloseLeftTabs(s, path).state;
            CloseLeftTabs(once, path).state == once
  {
    var once := CloseLeftTabs(s, path).state;
    if ClosesLeft(s.tabs, path) {
      var i := GetTabIndex(s.tabs, path);
      assert once.tabs[1] == s.tabs[i];
      if !IsTabReturn(once.tabs, path) {
        assert GetTabIndex(once.tabs, path) == 1;
        assert [once.tabs[0]] + once.tabs[1..] == once.tabs;
      }
    }
  }

  lemma CloseRightTabsIdempotent(s: TabState, path: string)
    ensures var once := CloseRightTabs(s, path).state;
            CloseRightTabs(once, path).state == once
  {
    var once := CloseRightTabs(s, path).state;
    if ClosesRight(s.tabs, path) {
      var i := GetTabIndex(s.tabs, path);
      if i >= 0 {
        assert GetTabIndex(once.tabs, path) == i;
      } else {
        assert |once.tabs| == 0;
      }
    }
  }

  lemma CloseAllTabsIdempotent(s: TabState)
    ensures var once := CloseAllTabs(s).state;
            CloseAllTabs(once).state == once
  {
    if |s.tabs| != 1 {
      FilterIdempotent(s.tabs, AtHome());
    }
  }

  // ---------------------------------------------------------------- edge cases

  /** `closeRightTabs` at a path with no tab closes every tab when not guarded:
      `findIndex` gives -1, the tab at index 0 counts as "a tab to the right",
      and the kept prefix `tabs[..0]` is empty. */
  lemma CloseRightTabsUnknownPathEmpties(s: TabState, path: string)
    requires !HasExistTab(s.tabs, path)
    requires |s.tabs| >= 3 || (|s.tabs| == 2 && path == Home)
    ensures CloseRightTabs(s, path).state.tabs == []
  {
  }

  /** `closeTab` throws exactly when the active path is closed and no other tab
      is left to navigate to. */
  lemma CloseTabFailsOnlyWithoutNeighbour(s: TabState, path: string)
    requires path == s.current
    requires exists i | 0 <= i < |s.tabs| :: s.tabs[i].path != path
    ensures CloseTab(s, path).Success?
  {
  }

  /** Without a tab at the literal home path (the configured home path used by
      `initTab` may differ), `closeAllTabs` closes every tab and still
      navigates to `/home`, a page with no tab. */
  lemma CloseAllTabsWithoutHomeEmpties(s: TabState)
    requires !HasExistTab(s.tabs, Home)
    requires |s.tabs| != 1
    ensures CloseAllTabs(s).state.tabs == []
    ensures CloseAllTabs(s).nav == Some(Home)
    ensures !HasExistTab(CloseAllTabs(s).state.tabs, Shown(CloseAllTabs(s)))
  {
  }
}
