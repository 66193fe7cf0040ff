/**
 * The two user commands that read the stored regions: open the URL under
 * the cursor, and open every URL of the view.
 */
module Commands {
  import opened Util
  import opened Regions
  import opened Editor

  /** Index of the first region of `urls[from..]` that contains `sel`, searching in list order. */
  function FirstContainingFrom(urls: seq<Region>, sel: Region, from: nat): (r: Option<nat>)
    requires from <= |urls|
    decreases |urls| - from
    ensures r.Some? ==> from <= r.value < |urls| && urls[r.value].ContainsRegion(sel)
                        && forall j :: from <= j < r.value ==> !urls[j].ContainsRegion(sel)
    ensures r.None? ==> forall j :: from <= j < |urls| ==> !urls[j].ContainsRegion(sel)
  {
    if from == |urls| then None
    else if urls[from].ContainsRegion(sel) then Some(from)
    else FirstContainingFrom(urls, sel, from + 1)
  }

  /** `next((url for url in urls if url.contains(sel)), None)`, as an index. */
  function FirstContaining(urls: seq<Region>, sel: Region): (r: Option<nat>)
    ensures r.Some? ==> r.value < |urls| && urls[r.value].ContainsRegion(sel)
                        && forall j :: 0 <= j < r.value ==> !urls[j].ContainsRegion(sel)
    ensures r.None? <==> forall j :: 0 <= j < |urls| ==> !urls[j].ContainsRegion(sel)
  {
    FirstContainingFrom(urls, sel, 0)
  }

  /**
   * `OpenUrlUnderCursorCommand.run`, up to the call of `open_url`: the
   * text to open, or `None` when the command does nothing.
   */
  function UrlUnderCursor(urlsForView: map<ViewId, seq<Region>>, id: ViewId, text: string, sel: Region): (r: Option<string>)
    ensures id !in urlsForView ==> r.None?
    ensures id in urlsForView && !sel.Empty() ==> r == Some(Substr(text, sel))
    ensures id in urlsForView && sel.Empty() ==>
      var urls := urlsForView[id];
      && (r.None? <==> forall j :: 0 <= j < |urls| ==> !urls[j].ContainsPoint(sel.a))
      && (r.Some? ==> exists i :: 0 <= i < |urls| && urls[i].ContainsPoint(sel.a) && r.value == Substr(text, urls[i])
                                 && forall j :: 0 <= j < i ==> !urls[j].ContainsPoint(sel.a))
  {
    if id !in urlsForView then None
    else if !sel.Empty() then Some(Substr(text, sel))
    else
      match FirstContaining(urlsForView[id], sel)
      case None => None
      case Some(i) => Some(Substr(text, urlsForView[id][i]))
  }

  /** The distinct texts of the view's stored regions: the set built by `OpenAllUrlsCommand.run`. */
  function AllUrls(urlsForView: map<ViewId, seq<Region>>, id: ViewId, text: string): (all: set<string>)
    ensures forall s :: s in all <==>
              id in urlsForView && exists i :: 0 <= i < |urlsForView[id]| && s == Substr(text, urlsForView[id][i])
  {
    if id in urlsForView then set u | u in urlsForView[id] :: Substr(text, u) else {}
  }

  /**
   * `OpenAllUrlsCommand.run` as evidently intended (`open_url(url, self.view)`):
   * the URLs handed to `open_url`, in order.
   */
  method OpenAllUrls(urlsForView: map<ViewId, seq<Region>>, id: ViewId, text: string) returns (urlsOpened: seq<string>)
    ensures NoDuplicates(urlsOpened)
    ensures forall s :: s in urlsOpened <==>
              id in urlsForView && exists i :: 0 <= i < |urlsForView[id]| && s == Substr(text, urlsForView[id][i])
  {
    urlsOpened := [];
    if id in urlsForView {
      var urls := AllUrls(urlsForView, id, text);
      var todo := urls;
      while todo != {}
        invariant todo <= urls
        invariant NoDuplicates(urlsOpened)
        invariant forall s :: s in urlsOpened <==> s in urls && s !in todo
        decreases todo
      {
        var s :| s in todo;
        urlsOpened := urlsOpened + [s];
        todo := todo - {s};
      }
    }
  }

  /** What `OpenAllUrlsCommand.run` does as written. */
  datatype OpenAllOutcome = Finished(urlsOpened: set<string>) | RaisedNameError

  /**
   * As written, the loop body passes the undefined name `view`, so the
   * first iteration raises `NameError` before anything is opened.
   */
  function OpenAllAsWritten(urlsForView: map<ViewId, seq<Region>>, id: ViewId, text: string): (r: OpenAllOutcome)
    ensures r.Finished? ==> r.urlsOpened == {}
    ensures r == RaisedNameError <==> id in urlsForView && |urlsForView[id]| > 0
  {
    var urls := AllUrls(urlsForView, id, text);
    if id in urlsForView && |urlsForView[id]| > 0 then
      assert Substr(text, urlsForView[id][0]) in urls;
      RaisedNameError
    else Finished({})
  }

  /** A view with one stored URL: as written nothing opens, as intended that URL opens. */
  lemma OpenAllAsWrittenOpensNothing()
    ensures var urls := map[1 := [Region(0, 8)]];
      && OpenAllAsWritten(urls, 1, "http://a") == RaisedNameError
      && AllUrls(urls, 1, "http://a") == {"http://a"}
  {
    var urls := map[1 := [Region(0, 8)]];
    assert Substr("http://a", Region(0, 8)) == "http://a";
    assert AllUrls(urls, 1, "http://a") == {Substr("http://a", Region(0, 8))};
  }

  /** Matches at [0,5) and [10,15): offset 12 opens the second, 6 opens nothing, 5 (inclusive end) the first. */
  lemma UnderCursorExample(text: string)
    ensures var urls := map[7 := [Region(0, 5), Region(10, 15)]];
      && UrlUnderCursor(urls, 7, text, Region(12, 12)) == Some(Substr(text, Region(10, 15)))
      && UrlUnderCursor(urls, 7, text, Region(6, 6)) == None
      && UrlUnderCursor(urls, 7, text, Region(5, 5)) == Some(Substr(text, Region(0, 5)))
      && UrlUnderCursor(urls, 8, text, Region(12, 12)) == None
  {
    var rs := [Region(0, 5), Region(10, 15)];
    assert FirstContaining(rs, Region(12, 12)) == Some(1);
    assert FirstContaining(rs, Region(5, 5)) == Some(0);
    assert !rs[0].ContainsPoint(6) && !rs[1].ContainsPoint(6);
  }

  /** Three stored regions, two with the same text: two distinct URLs. */
  lemma AllUrlsExample()
    ensures AllUrls(map[1 := [Region(0, 1), Region(2, 3), Region(4, 5)]], 1, "a a b") == {"a", "b"}
  {
    var text, rs := "a a b", [Region(0, 1), Region(2, 3), Region(4, 5)];
    assert Substr(text, rs[0]) == "a";
    assert Substr(text, rs[1]) == "a";
    assert Substr(text, rs[2]) == "b";
    var all := AllUrls(map[1 := rs], 1, text);
    assert all == set u | u in rs :: Substr(text, u);
    assert forall u :: u in rs ==> u == rs[0] || u == rs[1] || u == rs[2];
    assert "a" in all && "b" in all;
    assert forall x :: x in all ==> x == "a" || x == "b";
  }
}
