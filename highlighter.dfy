/**
 * The event listener's process-wide bookkeeping: the regions found in
 * each view, the scopes underlined in it, and the views ignored for
 * holding too many URLs.
 */
module Highlighter {
  import opened Util
  import opened Regions
  import opened Settings
  import opened Grouping
  import opened Editor
  import opened Markers

  /** The life cycle of one view as the tables record it. */
  datatype ViewState = Unscanned | Scanned | Ignored

  /** The three tables together, for comparing two moments. */
  datatype Snapshot = Snapshot(
    urls: map<ViewId, seq<Region>>,
    scopes: map<ViewId, set<Scope>>,
    ignored: seq<ViewId>,
    drawn: map<string, Drawing>)

  /** `ignored_views` with `id` removed by value: what closing a view evidently intends. */
  function Without(xs: seq<ViewId>, id: ViewId): (r: seq<ViewId>)
    ensures forall x :: x in r <==> x in xs && x != id
    ensures NoDuplicates(xs) ==> NoDuplicates(r)
  {
    if xs == [] then []
    else
      assert NoDuplicates(xs) ==> NoDuplicates(xs[1..]) && xs[0] !in xs[1..] by {
        if NoDuplicates(xs) {
          forall i, j | 0 <= i < j < |xs[1..]|
            ensures xs[1..][i] != xs[1..][j]
          {
            assert xs[1..][i] == xs[i + 1] && xs[1..][j] == xs[j + 1];
          }
        }
      }
      (if xs[0] == id then [] else [xs[0]]) + Without(xs[1..], id)
  }

  /**
   * Python's `del xs[i]` on a list: `None` when it raises `IndexError`;
   * otherwise the element at position `i` (counted from the end when `i`
   * is negative) goes and every other element keeps its relative order.
   */
  function PyDelAt(xs: seq<ViewId>, i: int): (r: Option<seq<ViewId>>)
    ensures r.Some? <==> -|xs| <= i < |xs|
    ensures r.Some? ==> |r.value| == |xs| - 1
    ensures r.Some? ==> var j := if i < 0 then i + |xs| else i;
      && (forall k :: 0 <= k < j ==> r.value[k] == xs[k])
      && (forall k :: j <= k < |r.value| ==> r.value[k] == xs[k + 1])
    ensures r.Some? && NoDuplicates(xs) ==> NoDuplicates(r.value)
  {
    if -|xs| <= i < |xs| then
      var j := if i < 0 then i + |xs| else i;
      var ys := xs[..j] + xs[j + 1..];
      assert forall k :: 0 <= k < |ys| ==> ys[k] == xs[if k < j then k else k + 1];
      Some(ys)
    else None
  }

  /**
   * `ignored_views` after `on_close` as written: the view id is used as a
   * list POSITION, so another entry may go, or `IndexError` is raised.
   */
  function IgnoredAfterCloseAsWritten(ignored: seq<ViewId>, id: ViewId): (r: Option<seq<ViewId>>)
    ensures id !in ignored ==> r == Some(ignored)
    ensures r.None? <==> id in ignored && !(-|ignored| <= id < |ignored|)
  {
    if id in ignored then PyDelAt(ignored, id) else Some(ignored)
  }

  /** Closing view 1 while views 1 and 2 are ignored un-ignores view 2 and keeps view 1. */
  lemma CloseAsWrittenDropsWrongView()
    ensures IgnoredAfterCloseAsWritten([1, 2], 1) == Some([1])
    ensures Without([1, 2], 1) == [2]
  {
    assert [1, 2][..1] + [1, 2][2..] == [1];
  }

  /**
   * Whenever the closed view's id is a position of the ignore list that
   * holds another view, closing as written keeps the closed view ignored
   * and un-ignores the view at that position.
   */
  lemma CloseAsWrittenKeepsClosedView(ignored: seq<ViewId>, id: ViewId)
    requires NoDuplicates(ignored) && id in ignored && 0 <= id < |ignored| && ignored[id] != id
    ensures var r := IgnoredAfterCloseAsWritten(ignored, id);
      r.Some? && id in r.value && ignored[id] !in r.value
  {
    var r := IgnoredAfterCloseAsWritten(ignored, id).value;
    var p :| 0 <= p < |ignored| && ignored[p] == id;
    assert r[if p < id then p else p - 1] == id;
    forall q | 0 <= q < |r|
      ensures r[q] != ignored[id]
    {
      assert r[q] == ignored[if q < id then q else q + 1];
    }
  }

  /** Whenever the id is not a valid position of the list, closing raises and the id stays ignored. */
  lemma CloseAsWrittenRaises(ignored: seq<ViewId>, id: ViewId)
    requires id in ignored && !(-|ignored| <= id < |ignored|)
    ensures IgnoredAfterCloseAsWritten(ignored, id).None?
    ensures id !in Without(ignored, id)
  {
  }

  /** `scopes_for_view.get(id, None)`. */
  function StoredScopes(scopes: map<ViewId, set<Scope>>, id: ViewId): (r: Option<set<Scope>>)
    ensures r.None? <==> id !in scopes
    ensures r.Some? ==> r.value == scopes[id]
  {
    if id in scopes then Some(scopes[id]) else None
  }

  /** The view's state, read off the tables. */
  function StateIn(t: Snapshot, id: ViewId): ViewState
  {
    if id in t.ignored then Ignored
    else if id in t.urls then Scanned
    else Unscanned
  }

  /** The tables' invariant: no id ignored twice, scopes only for stored views. */
  predicate Consistent(t: Snapshot)
  {
    NoDuplicates(t.ignored) && t.scopes.Keys <= t.urls.Keys
  }

  /** Whether a scan request gets as far as searching the view. */
  predicate ScanRuns(t: Snapshot, id: ViewId, force: bool, settings: Settings)
    ensures !force && !AutoFindUrls(settings) ==> !ScanRuns(t, id, force, settings)
    ensures id in t.ignored ==> !ScanRuns(t, id, force, settings)
    ensures force && id !in t.ignored ==> ScanRuns(t, id, force, settings)
    ensures AutoFindUrls(settings) && id !in t.ignored ==> ScanRuns(t, id, force, settings)
  {
    (force || AutoFindUrls(settings)) && id !in t.ignored
  }

  /**
   * What one `update_url_highlights` call does to the tables and to the
   * view's drawn groups, given what `find_all` returned.
   */
  function ScanResult(t: Snapshot, id: ViewId, scopeName: int -> Scope, found: seq<Region>,
                      force: bool, settings: Settings, nativeUnderline: bool): (r: Snapshot)
    ensures r.ignored == t.ignored || r.ignored == t.ignored + [id]
  {
    if !ScanRuns(t, id, force, settings) then t
    else if |found| > MaxUrlLimit(settings) then t.(ignored := t.ignored + [id])
    else if ShouldHighlightUrls(settings) then
      t.(urls := t.urls[id := found],
         scopes := t.scopes[id := ScopesOf(scopeName, found)],
         drawn := AfterHighlight(t.drawn, StoredScopes(t.scopes, id), Groups(scopeName, found), nativeUnderline))
    else t.(urls := t.urls[id := found])
  }

  /**
   * The gates: with auto-find off and no force, or with the view ignored,
   * nothing changes; forcing opens only the first gate.
   */
  lemma ScanGates(t: Snapshot, id: ViewId, scopeName: int -> Scope, found: seq<Region>,
                  force: bool, settings: Settings, nativeUnderline: bool)
    ensures !force && !AutoFindUrls(settings) ==>
              ScanResult(t, id, scopeName, found, force, settings, nativeUnderline) == t
    ensures id in t.ignored ==>
              ScanResult(t, id, scopeName, found, force, settings, nativeUnderline) == t
    ensures ScanRuns(t, id, true, settings) <==> id !in t.ignored
  {
  }

  /**
   * The ceiling: more matches than the limit ignores the view and keeps
   * whatever was stored before; at most the limit stores exactly the
   * matches found, in order.
   */
  lemma ScanCeiling(t: Snapshot, id: ViewId, scopeName: int -> Scope, found: seq<Region>,
                    force: bool, settings: Settings, nativeUnderline: bool)
    requires ScanRuns(t, id, force, settings)
    ensures var r := ScanResult(t, id, scopeName, found, force, settings, nativeUnderline);
      && (|found| > MaxUrlLimit(settings) ==>
            r.ignored == t.ignored + [id] && r.urls == t.urls && r.scopes == t.scopes && r.drawn == t.drawn
            && StateIn(r, id) == Ignored)
      && (|found| <= MaxUrlLimit(settings) ==>
            r.ignored == t.ignored && id in r.urls && r.urls[id] == found && StateIn(r, id) == Scanned)
      && (|found| <= MaxUrlLimit(settings) && !ShouldHighlightUrls(settings) ==>
            r.scopes == t.scopes && r.drawn == t.drawn)
  {
  }

  /**
   * After a highlighting scan the stored scopes are exactly the scope
   * labels of the stored regions, each with its own underline group.
   */
  lemma ScanScopesMatchRegions(t: Snapshot, id: ViewId, scopeName: int -> Scope, found: seq<Region>,
                               force: bool, settings: Settings, nativeUnderline: bool)
    requires ScanRuns(t, id, force, settings) && |found| <= MaxUrlLimit(settings)
    requires ShouldHighlightUrls(settings)
    ensures var r := ScanResult(t, id, scopeName, found, force, settings, nativeUnderline);
      && r.scopes[id] == ScopesOf(scopeName, r.urls[id])
      && forall s :: s in r.scopes[id] ==>
           MarkerKey(s) in r.drawn
           && r.drawn[MarkerKey(s)] == Drawn(s, InScope(scopeName, found, s), nativeUnderline)
  {
    var groups := Groups(scopeName, found);
    GroupsPartition(scopeName, found);
    AfterHighlightSpec(t.drawn, StoredScopes(t.scopes, id), groups, nativeUnderline);
  }

  /** A scan keeps the tables consistent, and an ignored view stays ignored. */
  lemma ScanKeepsConsistent(t: Snapshot, id: ViewId, scopeName: int -> Scope, found: seq<Region>,
                            force: bool, settings: Settings, nativeUnderline: bool)
    requires Consistent(t)
    ensures var r := ScanResult(t, id, scopeName, found, force, settings, nativeUnderline);
      && Consistent(r)
      && (StateIn(t, id) == Ignored ==> StateIn(r, id) == Ignored)
  {
    var r := ScanResult(t, id, scopeName, found, force, settings, nativeUnderline);
    if ScanRuns(t, id, force, settings) && |found| > MaxUrlLimit(settings) {
      assert r.ignored == t.ignored + [id];
      forall i, j | 0 <= i < j < |r.ignored|
        ensures r.ignored[i] != r.ignored[j]
      {
        if j == |t.ignored| {
          assert r.ignored[i] == t.ignored[i];
        }
      }
    }
  }

  /** A scan touches no other view's entries, and no other view's state. */
  lemma ScanKeepsOtherViews(t: Snapshot, id: ViewId, scopeName: int -> Scope, found: seq<Region>,
                            force: bool, settings: Settings, nativeUnderline: bool)
    ensures var r := ScanResult(t, id, scopeName, found, force, settings, nativeUnderline);
      forall other :: other != id ==>
        && StateIn(r, other) == StateIn(t, other)
        && (other in r.urls <==> other in t.urls) && (other in r.urls ==> r.urls[other] == t.urls[other])
        && (other in r.scopes <==> other in t.scopes) && (other in r.scopes ==> r.scopes[other] == t.scopes[other])
  {
  }

  /**
   * Scanning an unchanged view twice with the same settings leaves the
   * tables and the drawn groups as one scan left them.
   */
  lemma ScanIdempotent(t: Snapshot, id: ViewId, scopeName: int -> Scope, found: seq<Region>,
                       force: bool, settings: Settings, nativeUnderline: bool)
    ensures var once := ScanResult(t, id, scopeName, found, force, settings, nativeUnderline);
      ScanResult(once, id, scopeName, found, force, settings, nativeUnderline) == once
  {
    var once := ScanResult(t, id, scopeName, found, force, settings, nativeUnderline);
    if ScanRuns(t, id, force, settings) && |found| <= MaxUrlLimit(settings) && ShouldHighlightUrls(settings) {
      var groups := Groups(scopeName, found);
      var drawn := AfterHighlight(t.drawn, StoredScopes(t.scopes, id), groups, nativeUnderline);
      GroupsPartition(scopeName, found);
      AfterHighlightIdempotent(t.drawn, StoredScopes(t.scopes, id), groups, nativeUnderline);
      HighlightScanRepeats(t, id, found, ScopesOf(scopeName, found), groups, drawn, nativeUnderline);
    }
  }

  /** The highlighting branch of a scan, repeated on its own result, reproduces that result. */
  lemma HighlightScanRepeats(t: Snapshot, id: ViewId, found: seq<Region>, ks: set<Scope>,
                             groups: map<Scope, seq<Region>>, drawn: map<string, Drawing>, nativeUnderline: bool)
    requires groups.Keys == ks
    requires AfterHighlight(drawn, Some(ks), groups, nativeUnderline) == drawn
    ensures var once := t.(urls := t.urls[id := found], scopes := t.scopes[id := ks], drawn := drawn);
      once.(urls := once.urls[id := found], scopes := once.scopes[id := ks],
            drawn := AfterHighlight(once.drawn, StoredScopes(once.scopes, id), groups, nativeUnderline)) == once
  {
    var once := t.(urls := t.urls[id := found], scopes := t.scopes[id := ks], drawn := drawn);
    assert once.urls[id := found] == once.urls && once.scopes[id := ks] == once.scopes;
    assert StoredScopes(once.scopes, id) == Some(ks);
  }

  /** Closing a view: its entries leave all three tables; nothing drawn changes. */
  function CloseResult(t: Snapshot, id: ViewId): (c: Snapshot)
    ensures id !in c.urls && id !in c.scopes && id !in c.ignored
    ensures c.drawn == t.drawn
  {
    t.(urls := t.urls - {id}, scopes := t.scopes - {id}, ignored := Without(t.ignored, id))
  }

  /** Closing one view leaves every other view's stored regions and scopes as they were. */
  lemma CloseKeepsOtherViews(t: Snapshot, id: ViewId)
    ensures var r := CloseResult(t, id);
      forall other :: other != id ==>
        && (other in r.urls <==> other in t.urls) && (other in r.urls ==> r.urls[other] == t.urls[other])
        && (other in r.scopes <==> other in t.scopes) && (other in r.scopes ==> r.scopes[other] == t.scopes[other])
  {
  }

  /** After closing, the view is back to `Unscanned`, the tables stay consistent, other views keep their state. */
  lemma CloseForgetsView(t: Snapshot, id: ViewId)
    requires Consistent(t)
    ensures var r := CloseResult(t, id);
      && Consistent(r) && StateIn(r, id) == Unscanned
      && forall other :: other != id ==> StateIn(r, other) == StateIn(t, other)
  {
  }

  /**
   * After closing, a forced scan of the view does to it exactly what it
   * does on empty tables, where the view has never been seen: the same
   * state, the same stored regions and scopes, the same drawn groups.
   */
  lemma ScanAfterCloseIsFirstScan(t: Snapshot, id: ViewId, scopeName: int -> Scope, found: seq<Region>,
                                  settings: Settings, nativeUnderline: bool)
    ensures var c := CloseResult(t, id);
      var nv := Snapshot(map[], map[], [], c.drawn);
      var r := ScanResult(c, id, scopeName, found, true, settings, nativeUnderline);
      var f := ScanResult(nv, id, scopeName, found, true, settings, nativeUnderline);
      && StateIn(r, id) == StateIn(f, id)
      && (id in r.urls <==> id in f.urls) && (id in r.urls ==> r.urls[id] == f.urls[id])
      && (id in r.scopes <==> id in f.scopes) && (id in r.scopes ==> r.scopes[id] == f.scopes[id])
      && r.drawn == f.drawn
  {
  }

  class UrlHighlighter {
    /** `urls_for_view`: view id to the regions of its latest stored scan. */
    var urlsForView: map<ViewId, seq<Region>>
    /** `scopes_for_view`: view id to the scopes underlined in it. */
    var scopesForView: map<ViewId, set<Scope>>
    /** `ignored_views`: views that exceeded the match-count ceiling. */
    var ignoredViews: seq<ViewId>

    /**
     * Every view is ignored at most once, and scopes are only recorded for
     * views whose regions are stored.
     */
    ghost predicate Valid()
      reads this
    {
      Consistent(Tables())
    }

    /** The view's state as the tables record it. */
    ghost function StateOf(id: ViewId): ViewState
      reads this
    {
      StateIn(Tables(), id)
    }

    /** The three tables, with no drawn groups. */
    ghost function Tables(): Snapshot
      reads this
    {
      Snapshot(urlsForView, scopesForView, ignoredViews, map[])
    }

    /** The tables, with the drawn groups of `view`. */
    ghost function Snap(view: EditorView): Snapshot
      reads this, view
    {
      Snapshot(urlsForView, scopesForView, ignoredViews, view.regions)
    }

    /** The view states the tables record are those read off the snapshot. */
    lemma StateOfIsStateIn(view: EditorView)
      ensures forall id :: StateOf(id) == StateIn(Snap(view), id)
    {
    }

    constructor ()
      ensures Valid()
      ensures urlsForView == map[] && scopesForView == map[] && ignoredViews == []
    {
      urlsForView := map[];
      scopesForView := map[];
      ignoredViews := [];
    }

    /** `on_close`, removing the view from the ignore list by value. */
    method OnClose(view: EditorView)
      requires Valid()
      modifies this
      ensures Valid()
      ensures Snap(view) == CloseResult(old(Snap(view)), view.id)
      ensures StateOf(view.id) == Unscanned
      ensures forall id :: id != view.id ==> StateOf(id) == old(StateOf(id))
    {
      urlsForView := urlsForView - {view.id};
      scopesForView := scopesForView - {view.id};
      ignoredViews := Without(ignoredViews, view.id);
    }

    /** `on_close` as written: positional `del` on the ignore list. */
    method OnCloseAsWritten(view: EditorView) returns (raisedIndexError: bool)
      requires Valid()
      modifies this
      ensures Valid()
      ensures urlsForView == old(urlsForView) - {view.id}
      ensures scopesForView == old(scopesForView) - {view.id}
      ensures var r := IgnoredAfterCloseAsWritten(old(ignoredViews), view.id);
        raisedIndexError == r.None? && ignoredViews == (if r.Some? then r.value else old(ignoredViews))
    {
      urlsForView := urlsForView - {view.id};
      scopesForView := scopesForView - {view.id};
      var r := IgnoredAfterCloseAsWritten(ignoredViews, view.id);
      raisedIndexError := r.None?;
      if r.Some? {
        ignoredViews := r.value;
      }
    }

    /**
     * `update_url_highlights`: unless switched off or ignored, search the
     * view, ignore it if it has too many matches, otherwise store them and
     * (when configured) underline them.
     */
    method UpdateUrlHighlights(view: EditorView, force: bool, settings: Settings, nativeUnderline: bool)
      requires Valid()
      modifies this, view
      ensures Valid()
      ensures Snap(view) == ScanResult(old(Snap(view)), view.id, view.scopeName,
                                       view.findAll(ScanPattern(settings)), force, settings, nativeUnderline)
      ensures old(StateOf(view.id)) == Ignored ==> StateOf(view.id) == Ignored
      ensures forall id :: id != view.id ==> StateOf(id) == old(StateOf(id))
    {
      ghost var t, found := Snap(view), view.findAll(ScanPattern(settings));
      ScanKeepsConsistent(t, view.id, view.scopeName, found, force, settings, nativeUnderline);
      ScanKeepsOtherViews(t, view.id, view.scopeName, found, force, settings, nativeUnderline);
      StateOfIsStateIn(view);
      if force || AutoFindUrls(settings) {
        var maxUrlLimit := MaxUrlLimit(settings);
        var combinedRegex := ScanPattern(settings);
        if view.id !in ignoredViews {
          var urls := view.findAll(combinedRegex);
          if |urls| > maxUrlLimit {
            ignoredViews := ignoredViews + [view.id];
          } else {
            urlsForView := urlsForView[view.id := urls];
            if ShouldHighlightUrls(settings) {
              HighlightUrls(view, urls, nativeUnderline);
            }
          }
        }
      }
      StateOfIsStateIn(view);
    }

    /** `FindUrlsCommand.run`: a scan that bypasses the auto-find setting, but not the ignore list. */
    method FindUrls(view: EditorView, settings: Settings, nativeUnderline: bool)
      requires Valid()
      modifies this, view
      ensures Valid()
      ensures view.id in old(ignoredViews) ==> Snap(view) == old(Snap(view))
      ensures Snap(view) == ScanResult(old(Snap(view)), view.id, view.scopeName,
                                       view.findAll(ScanPattern(settings)), true, settings, nativeUnderline)
    {
      UpdateUrlHighlights(view, true, settings, nativeUnderline);
    }

    /**
     * `highlight_urls`: group the regions by scope, underline each group,
     * then record the new scope set (erasing groups no longer used).
     */
    method HighlightUrls(view: EditorView, urls: seq<Region>, nativeUnderline: bool)
      modifies this, view
      ensures urlsForView == old(urlsForView) && ignoredViews == old(ignoredViews)
      ensures scopesForView == old(scopesForView)[view.id := ScopesOf(view.scopeName, urls)]
      ensures view.regions == AfterHighlight(old(view.regions), StoredScopes(old(scopesForView), view.id),
                                             Groups(view.scopeName, urls), nativeUnderline)
    {
      var scopeMap := CollectByScope(view.scopeName, urls);
      GroupsPartition(view.scopeName, urls);
      ghost var m0 := view.regions;
      var todo := scopeMap.Keys;
      assert MarkerKeys({}) == {};
      while todo != {}
        invariant todo <= scopeMap.Keys
        invariant PaintedOver(view.regions, m0, scopeMap.Keys - todo, scopeMap, nativeUnderline)
        invariant unchanged(this)
        decreases todo
      {
        var s :| s in todo;
        PaintedStep(view.regions, m0, scopeMap.Keys - todo, s, scopeMap, nativeUnderline);
        UnderlineRegions(view, s, scopeMap[s], nativeUnderline);
        assert scopeMap.Keys - (todo - {s}) == (scopeMap.Keys - todo) + {s};
        todo := todo - {s};
      }
      PaintedOverIsPainted(view.regions, m0, scopeMap.Keys, scopeMap, nativeUnderline);
      UpdateViewScopes(view, scopeMap.Keys);
    }

    /** `underline_regions`: draw one scope's group, natively or as per-character empty regions. */
    method UnderlineRegions(view: EditorView, scope: Scope, regions: seq<Region>, nativeUnderline: bool)
      modifies view
      ensures view.regions == old(view.regions)[MarkerKey(scope) := Drawn(scope, regions, nativeUnderline)]
    {
      if nativeUnderline {
        view.AddRegions(MarkerKey(scope), regions, scope, SolidUnderline);
      } else {
        var charRegions := CharRegions(regions);
        view.AddRegions(MarkerKey(scope), charRegions, scope, EmptyAsOverwrite);
      }
    }

    /**
     * `update_view_scopes`: erase the groups of the previously stored
     * scopes that are not among the new ones, then store the new ones.
     */
    method UpdateViewScopes(view: EditorView, newScopes: set<Scope>)
      modifies this, view
      ensures urlsForView == old(urlsForView) && ignoredViews == old(ignoredViews)
      ensures scopesForView == old(scopesForView)[view.id := newScopes]
      ensures view.regions == Erased(old(view.regions), Unused(StoredScopes(old(scopesForView), view.id), newScopes))
    {
      var oldScopes := StoredScopes(scopesForView, view.id);
      assert MarkerKeys({}) == {};
      if oldScopes.Some? && oldScopes.value != {} {
        var unusedScopes := oldScopes.value - newScopes;
        var todo := unusedScopes;
        while todo != {}
          invariant todo <= unusedScopes
          invariant view.regions == Erased(old(view.regions), unusedScopes - todo)
          invariant unchanged(this)
          decreases todo
        {
          var s :| s in todo;
          ErasedStep(old(view.regions), unusedScopes - todo, s);
          view.EraseRegions(MarkerKey(s));
          assert unusedScopes - (todo - {s}) == (unusedScopes - todo) + {s};
          todo := todo - {s};
        }
      }
      scopesForView := scopesForView[view.id := newScopes];
    }

    /**
     * Scanning an unchanged view a second time, with the same settings,
     * leaves every table and every drawn group as the first scan left them.
     */
    method Rescan(view: EditorView, force: bool, settings: Settings, nativeUnderline: bool)
      returns (ghost afterFirst: Snapshot)
      requires Valid()
      modifies this, view
      ensures Valid()
      ensures afterFirst == ScanResult(old(Snap(view)), view.id, view.scopeName,
                                       view.findAll(ScanPattern(settings)), force, settings, nativeUnderline)
      ensures Snap(view) == afterFirst
    {
      UpdateUrlHighlights(view, force, settings, nativeUnderline);
      afterFirst := Snap(view);
      ScanIdempotent(old(Snap(view)), view.id, view.scopeName, view.findAll(ScanPattern(settings)),
                     force, settings, nativeUnderline);
      UpdateUrlHighlights(view, force, settings, nativeUnderline);
    }
  }
}
