# ClickableUrls for Sublime Text: a Dafny model of the URL bookkeeping

ClickableUrls is a Sublime Text plugin. It finds URL-like text in every open
view, underlines the matches, and opens the URL under the cursor, or all the
view's URLs, on request. This project models the plugin's per-view
bookkeeping and proves properties of it. The bookkeeping is three
process-wide tables:

- `urls_for_view`: view id to the regions found by the latest stored scan;
- `scopes_for_view`: view id to the scope labels underlined in that view;
- `ignored_views`: the views that held more matches than the ceiling allows.

The model keeps the plugin's own shape:

- `Regions`: Sublime's `Region`, `view.substr`, and the Sublime Text 2
  expansion of a region into one empty region per character.
- `Settings`: the settings keys with their defaults, and the search pattern
  (the URL pattern alone, or `(URL)|(file_folder_regex)`).
- `Grouping`: grouping of regions by the scope at their start, as a spec
  function plus the imperative loop of `highlight_urls`.
- `Editor`: the host view as a class. Its id, text, `scope_name` and
  `find_all` are fixed. Its drawn region groups are a map that `add_regions`
  and `erase_regions` update.
- `Markers`: the group key `clickable-urls <scope>`, what one group looks
  like, and the drawn state after underlining and erasing.
- `Highlighter`: the `UrlHighlighter` class holding the three tables, with
  `update_url_highlights`, `highlight_urls`, `underline_regions`,
  `update_view_scopes` and `on_close` as methods. `ScanResult` and
  `CloseResult` are their specification functions on a `Snapshot` of the
  tables, and the lemmas about the scan and the close are stated on them.
- `Commands`: resolving the URL under the cursor and the set of all URLs.

A view over the ceiling is only appended to `ignored_views`. Any regions
stored for it by an earlier scan stay (`clickable_urls.py:62-65`).
`ScanCeiling` states this.

## Model

| member | source | states |
|---|---|---|
| Regions.Region.ContainsPoint | clickable_urls.py:147 | `Region.contains(x)` for an offset: `x` lies between the two ends, both inclusive, whichever end is larger |
| Regions.Region.ContainsRegion | clickable_urls.py:147 | `Region.contains(r)`: the interval of `r` lies within the region's interval, ends included |
| Regions.Substr | clickable_urls.py:150-157 | `view.substr(region)`: the text of the region, cut to the buffer; a region inside the buffer gives exactly its size in characters |
| Regions.CharRegions | clickable_urls.py:109 | the Sublime Text 2 expansion produces only zero-width regions |
| Regions.CharRegionsLength | clickable_urls.py:109 | the Sublime Text 2 expansion yields one region per position in `range(a, b)`: its length is the sum of the ranges' lengths |
| Regions.CharRegionsAppend | clickable_urls.py:109 | the expansion of a concatenation is the concatenation of the expansions, so regions are expanded in list order |
| Regions.CharRegionsMembership | clickable_urls.py:109 | a region is produced exactly when it is zero-width and its offset lies in `[a, b)` of some input region |
| Settings.AutoFindUrls | clickable_urls.py:48 | `settings.get('auto_find_urls', True)`: the stored value, or on when the key is absent |
| Settings.ShouldHighlightUrls | clickable_urls.py:51 | `settings.get('highlight_urls', True)`: the stored value, or on when the key is absent |
| Settings.MaxUrlLimit | clickable_urls.py:52 | `settings.get('max_url_limit', 200)`: the stored value, or 200 when the key is absent |
| Settings.FileFolderRegex | clickable_urls.py:53 | `settings.get('file_folder_regex', '')`: the stored value, or the empty string when the key is absent |
| Settings.CombinedRegex | clickable_urls.py:54 | an empty supplementary pattern gives the URL pattern alone; otherwise the pattern is `(URL)|(supplementary)`: an opening `(`, the URL pattern, `)|(`, the supplementary pattern and a closing `)` |
| Settings.ScanPattern | clickable_urls.py:47-54 | a scan uses the URL pattern alone exactly when `file_folder_regex` is unset or empty |
| Settings.Defaults | clickable_urls.py:47-54 | with no setting present: auto-find on, highlighting on, ceiling 200, and the URL pattern alone |
| Grouping.ScopesOf | clickable_urls.py:88-94 | every region's start scope is in the scope set |
| Grouping.InScope | clickable_urls.py:88-89 | a scope's group is no longer than the input and holds only input regions whose start lies in that scope |
| Grouping.Groups | clickable_urls.py:86-89 | in the scope map, every group holds only regions whose start lies in its own scope |
| Grouping.CollectByScope | clickable_urls.py:86-89 | the `setdefault(...).append` loop builds exactly the scope map `Groups` |
| Grouping.InScopeAppend | clickable_urls.py:89 | a scope's group of a concatenation is the concatenation of its groups, so the original order is kept |
| Grouping.InScopeCount | clickable_urls.py:86-89 | every region, with all its occurrences, is in the group of its start-offset scope and in no other group |
| Grouping.InScopeNonEmpty | clickable_urls.py:86-89 | a scope has a non-empty group if and only if it is the scope of some region's start |
| Grouping.GroupsSnoc | clickable_urls.py:88-89 | appending one region extends or creates only the group of its scope |
| Grouping.GroupsPartition | clickable_urls.py:86-94 | the key set is the set of start scopes, no group is empty, and each group holds exactly its scope's regions with their multiplicities |
| Editor.EditorView.AddRegions | clickable_urls.py:102-114 | `view.add_regions(key, ...)` replaces the group under `key` and leaves every other group as it was |
| Editor.EditorView.EraseRegions | clickable_urls.py:123 | `view.erase_regions(key)` removes the group under `key` and nothing else |
| Markers.MarkerKey | clickable_urls.py:103 | the group key of a scope is the prefix `clickable-urls ` followed by the scope itself |
| Markers.Drawn | clickable_urls.py:100-114 | a group is drawn with its scope; from version 3019 on, the regions themselves with a solid underline; before that, their per-character empty regions, one per covered character, drawn as overwrite |
| Markers.MarkerKeyInjective | clickable_urls.py:103 | distinct scopes get distinct group keys `clickable-urls <scope>` |
| Markers.MarkerKeysMember | clickable_urls.py:123 | a scope's key is among a scope set's keys if and only if the scope is in the set |
| Markers.Painted | clickable_urls.py:91-92 | after underlining a set of scopes, the drawn keys are the old keys plus exactly those scopes' keys |
| Markers.PaintedAt | clickable_urls.py:91-92 | after underlining a set of scopes, each has its own group, and every other key keeps its drawing |
| Markers.PaintedOverIsPainted | clickable_urls.py:91-92 | the pointwise description of the underlined state determines the map |
| Markers.PaintedStep | clickable_urls.py:91-92 | underlining one more scope adds exactly that scope's group |
| Markers.PaintedIdle | clickable_urls.py:91-92 | re-underlining groups that are already drawn changes nothing |
| Markers.Erased | clickable_urls.py:122-123 | erasing removes exactly the keys of the erased scopes and keeps every other drawing |
| Markers.Unused | clickable_urls.py:119-121 | the erase set is empty without a stored entry, equals old minus new otherwise (the test for an empty stored set makes no difference), and never contains a new scope |
| Markers.ErasedStep | clickable_urls.py:122-123 | erasing one more scope removes exactly its key |
| Markers.AfterHighlight | clickable_urls.py:84-125 | highlighting draws no key other than the old ones and the keys of the groups underlined |
| Markers.AfterHighlightSpec | clickable_urls.py:84-125 | after highlighting, every present scope carries its group, every dropped scope's group is gone, and all other groups are untouched |
| Markers.AfterHighlightOnDrawn | clickable_urls.py:91-125 | highlighting groups already drawn, with those scopes stored, changes nothing |
| Markers.AfterHighlightIdempotent | clickable_urls.py:84-125 | highlighting the same groups twice gives the same drawn state as once |
| Highlighter.Without | clickable_urls.py:41-43 | removal by value: the result holds exactly the other ids and stays duplicate-free |
| Highlighter.PyDelAt | clickable_urls.py:43 | Python's `del xs[i]` raises exactly when `i` is outside `-len <= i < len`; otherwise exactly the element at position `i` (from the end when negative) goes, the others keep their order, and a duplicate-free list stays duplicate-free |
| Highlighter.IgnoredAfterCloseAsWritten | clickable_urls.py:41-43 | as written: an id not in the list leaves it unchanged; an id in the list raises `IndexError` exactly when it is not a valid position |
| Highlighter.CloseAsWrittenDropsWrongView | clickable_urls.py:41-43 | as written, closing view 1 with `ignored_views == [1, 2]` leaves `[1]`; by value it leaves `[2]` |
| Highlighter.CloseAsWrittenKeepsClosedView | clickable_urls.py:41-43 | for every duplicate-free ignore list where the closed id is a position holding another view: as written, the closed view stays ignored and the view at that position is un-ignored |
| Highlighter.CloseAsWrittenRaises | clickable_urls.py:41-43 | as written, an ignored id outside `-len <= id < len` raises `IndexError`; by value it is removed |
| Highlighter.StoredScopes | clickable_urls.py:119 | `scopes_for_view.get(id, None)`: nothing exactly when the view has no stored scopes, otherwise its stored set |
| Highlighter.ScanRuns | clickable_urls.py:48-57 | a scan goes on exactly when it is forced or auto-find is on, and the view is not ignored: it returns early when auto-find is off and the scan is not forced, or when the view is ignored |
| Highlighter.ScanResult | clickable_urls.py:46-71 | a scan leaves `ignored_views` as it was or appends exactly this view |
| Highlighter.ScanGates | clickable_urls.py:48-57 | with auto-find off and no force, or with the view ignored, a scan changes nothing; force bypasses only the auto-find gate |
| Highlighter.ScanCeiling | clickable_urls.py:59-71 | more matches than the limit appends the view to the ignore list and keeps earlier entries. At most the limit (exactly the limit included) stores exactly the matches found, in order. With highlighting off, under the limit, the scopes and drawn groups do not change |
| Highlighter.ScanScopesMatchRegions | clickable_urls.py:67-94 | after a highlighting scan, the stored scopes are exactly the scope labels of the stored regions, and each has its group drawn |
| Highlighter.ScanKeepsConsistent | clickable_urls.py:46-71 | a scan keeps the ignore list duplicate-free and scopes only for stored views, and an ignored view stays ignored |
| Highlighter.ScanKeepsOtherViews | clickable_urls.py:56-71 | a scan changes no other view's stored regions, stored scopes or state |
| Highlighter.HighlightScanRepeats | clickable_urls.py:67-71 | repeating the highlighting branch of a scan on its own result reproduces that result |
| Highlighter.ScanIdempotent | clickable_urls.py:46-71 | scanning an unchanged view twice leaves the tables and drawn groups as one scan left them |
| Highlighter.CloseResult | clickable_urls.py:40-43 | closing, with removal by value, leaves the view in no table and changes nothing drawn |
| Highlighter.CloseKeepsOtherViews | clickable_urls.py:40-43 | closing one view leaves every other view's stored regions and stored scopes exactly as they were |
| Highlighter.CloseForgetsView | clickable_urls.py:40-43 | closing returns the view to the unscanned state, keeps the tables consistent, and keeps every other view's state |
| Highlighter.ScanAfterCloseIsFirstScan | clickable_urls.py:40-71 | after closing, a forced scan gives the view the same state, stored regions, stored scopes and drawn groups as the same scan on empty tables, where the view was never seen |
| Highlighter.UrlHighlighter.constructor | clickable_urls.py:15-17 | the three tables start empty |
| Highlighter.UrlHighlighter.OnClose | clickable_urls.py:40-43 | closing, with removal by value, leaves the tables equal to `CloseResult`: the view is in no table |
| Highlighter.UrlHighlighter.OnCloseAsWritten | clickable_urls.py:40-43 | as written: both dict entries go, and the ignore list loses the element at position `id`, or `IndexError` is raised with the list unchanged; the tables stay consistent |
| Highlighter.UrlHighlighter.UpdateUrlHighlights | clickable_urls.py:46-71 | the new tables and drawn groups are exactly `ScanResult` of the old ones; an ignored view stays ignored; other views keep their state |
| Highlighter.UrlHighlighter.FindUrls | clickable_urls.py:127-129 | the "find URLs" command is a forced scan: still a no-op on an ignored view |
| Highlighter.UrlHighlighter.HighlightUrls | clickable_urls.py:84-94 | the stored scopes become the regions' scope set, and the drawn groups become `AfterHighlight` of the old ones |
| Highlighter.UrlHighlighter.UnderlineRegions | clickable_urls.py:99-114 | the group `clickable-urls <scope>` is replaced by the regions underlined, or by their per-character expansion on Sublime Text 2 |
| Highlighter.UrlHighlighter.UpdateViewScopes | clickable_urls.py:118-125 | erases the groups of exactly the unused scopes, then stores the new scopes, even when the new set is empty |
| Highlighter.UrlHighlighter.Rescan | clickable_urls.py:46-71 | the first scan leaves `ScanResult` of the old state, and a second scan of the unchanged view leaves the whole state as the first left it |
| Commands.FirstContainingFrom | clickable_urls.py:147 | returns the first index at or after `from` whose region contains the selection, or none when no region there does |
| Commands.FirstContaining | clickable_urls.py:147 | `next(...)` finds the first region in list order that contains the selection, and finds nothing exactly when no region does |
| Commands.UrlUnderCursor | clickable_urls.py:143-151 | no stored entry: nothing. A non-empty selection: its text. An empty selection: the text of the first stored region containing the cursor (ends inclusive), or nothing when none does |
| Commands.UnderCursorExample | clickable_urls.py:144-151 | for any text, with matches at [0,5) and [10,15): offset 12 gives the second, 6 gives nothing, 5 gives the first, and a view with no entry gives nothing |
| Commands.AllUrls | clickable_urls.py:156-157 | the set holds exactly the texts of the view's stored regions, and is empty without a stored entry |
| Commands.OpenAllUrls | clickable_urls.py:154-158 | as intended: each distinct stored text is opened exactly once, and nothing is opened without a stored entry |
| Commands.OpenAllAsWritten | clickable_urls.py:154-158 | as written: `NameError` is raised exactly when the view has a stored region, and nothing is ever opened |
| Commands.OpenAllAsWrittenOpensNothing | clickable_urls.py:157-158 | a view with one stored URL: as written it raises, while the intended set of URLs is that one URL |
| Commands.AllUrlsExample | clickable_urls.py:157 | three stored regions with texts `a`, `a`, `b` give the two-element set `{a, b}` |

## Findings

| source | as written | input that shows it | evidently intended | confidence | as-written member | corrected member |
|---|---|---|---|---|---|---|
| clickable_urls.py:41-43 | `del map[view.id()]` is also applied to the list `ignored_views`, so it deletes by position | `ignored_views == [1, 2]`, close view 1: the list becomes `[1]`. View 2 is no longer ignored and view 1 still is. With `[5]`, closing view 5 raises `IndexError` | remove the view id from the list by value | not executed | Highlighter.IgnoredAfterCloseAsWritten (shown by Highlighter.CloseAsWrittenDropsWrongView and, for all such lists, Highlighter.CloseAsWrittenKeepsClosedView) | Highlighter.Without (used by Highlighter.UrlHighlighter.OnClose) |
| clickable_urls.py:158 | `open_url(url, view)` uses the undefined name `view` | any view with at least one stored region: the first iteration raises `NameError` and no URL is opened | `open_url(url, self.view)` | not executed | Commands.OpenAllAsWritten (shown by Commands.OpenAllAsWrittenOpensNothing) | Commands.OpenAllUrls |

## Left out

- Regular-expression matching: `view.find_all(pattern)` is the view's given function `findAll` from pattern to regions. The semantics of the URL pattern and of `file_folder_regex` are not modelled; only the pattern string of line 54 is.
- `view.scope_name` is the view's given function `scopeName`. `view.substr` is modelled as slicing the view's text, cut to the buffer.
- `open_url` (lines 132-140) is left out because it checks the filesystem and launches a browser. The commands' results are the strings that would be passed to it.
- The `threading.Semaphore` wrapper `update_url_highlights_async` is left out because it exists only for concurrency; scans are modelled as sequential calls.
- The event handlers `on_activated`, `on_load`, `on_modified` and their `_async` forms are left out because each only calls the scan with `force` false. The `print` logging is left out too.
- The `sublime.version() >= '3019'` test of `underline_regions` (line 100) is the boolean parameter `nativeUnderline`. The `< '3000'` tests at lines 26 and 30 belong to the event handlers left out above.
- Settings.AutoFindUrls, Settings.ShouldHighlightUrls, Settings.MaxUrlLimit, Settings.FileFolderRegex: each setting is typed (`bool`, `int`, `string`) and `None` stands for an absent key, which reads as the default. The source tests the Python truthiness of whatever `settings.get` returns (lines 48, 54 and 70). An explicit `null`, `0` or `""` for `auto_find_urls` or `highlight_urls` therefore switches the feature off there, but cannot be expressed here, and a float `max_url_limit` is not modelled.
- Settings are one `Settings` value per call. The two reads of `highlight_urls` (lines 51 and 69) are taken to give the same value.
- `add_regions` flags are the `Style` of a drawing. The model does not cover how the editor renders them.
- `self.view.sel()[0]` is given as the selection argument. A view with no selection at all is the editor's concern and is not modelled.
- Commands.UrlUnderCursor: `if not selection` is modelled as "no region was found". Python's truthiness of a found region of length zero is left out, because it depends on the editor's `Region` class.
- Loops over a Python `dict` or `set` run in an order the model leaves unconstrained. The drawn groups and stored scopes that `highlight_urls` and `update_view_scopes` leave are proved the same for every order.
- Commands.OpenAllUrls: the order in which the URLs are opened follows set iteration, which the model leaves free. Only which URLs are opened, and that none is opened twice, is proved.
- `FindUrlsCommand` builds a fresh `UrlHighlighter()`, but the tables are class attributes, so one `UrlHighlighter` object stands for the process-wide tables.
