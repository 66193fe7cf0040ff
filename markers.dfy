/**
 * What the plugin draws: one underline group per scope, keyed by
 * `clickable-urls <scope>`, and the groups it erases when a scope is
 * no longer used.
 */
module Markers {
  import opened Util
  import opened Regions
  import opened Grouping
  import opened Editor

  const KeyPrefix: string := "clickable-urls "

  /** The region-group key for a scope. */
  function MarkerKey(s: Scope): (k: string)
    ensures |k| == |KeyPrefix| + |s|
    ensures k[..|KeyPrefix|] == KeyPrefix && k[|KeyPrefix|..] == s
  {
    KeyPrefix + s
  }

  /** Different scopes never share a group key. */
  lemma MarkerKeyInjective(s: Scope, t: Scope)
    requires MarkerKey(s) == MarkerKey(t)
    ensures s == t
  {
    assert s == MarkerKey(s)[|KeyPrefix|..];
  }

  /** The keys of the groups of a set of scopes. */
  function MarkerKeys(scopes: set<Scope>): set<string>
  {
    set s | s in scopes :: MarkerKey(s)
  }

  /** A scope's key is among the keys of a scope set exactly when the scope is in the set. */
  lemma MarkerKeysMember(s: Scope, scopes: set<Scope>)
    ensures MarkerKey(s) in MarkerKeys(scopes) <==> s in scopes
  {
    if MarkerKey(s) in MarkerKeys(scopes) {
      var t :| t in scopes && MarkerKey(t) == MarkerKey(s);
      MarkerKeyInjective(s, t);
    }
  }

  /**
   * `underline_regions`' drawing of one group: the regions themselves
   * underlined (Sublime Text 3, version 3019 on), or their per-character
   * empty regions (Sublime Text 2).
   */
  function Drawn(scope: Scope, rs: seq<Region>, nativeUnderline: bool): (d: Drawing)
    ensures d.scope == scope
    ensures nativeUnderline ==> d.regions == rs && d.style == SolidUnderline
    ensures !nativeUnderline ==>
      d.style == EmptyAsOverwrite && d.regions == CharRegions(rs) && |d.regions| == SumRangeLen(rs)
  {
    CharRegionsLength(rs);
    if nativeUnderline then Drawing(rs, scope, SolidUnderline)
    else Drawing(CharRegions(rs), scope, EmptyAsOverwrite)
  }

  /**
   * The drawn groups after underlining every scope of `done` from
   * `groups`: the old keys and the underlined scopes' keys, and no other
   * key. `PaintedAt` says what each key holds.
   */
  function Painted(m: map<string, Drawing>, done: set<Scope>, groups: map<Scope, seq<Region>>, nativeUnderline: bool): (p: map<string, Drawing>)
    requires done <= groups.Keys
    ensures p.Keys == m.Keys + MarkerKeys(done)
  {
    assert forall s {:trigger MarkerKey(s)} :: |MarkerKey(s)| >= |KeyPrefix| && MarkerKey(s)[|KeyPrefix|..] == s;
    var added := map key | key in MarkerKeys(done) ::
      Drawn(key[|KeyPrefix|..], groups[key[|KeyPrefix|..]], nativeUnderline);
    m + added
  }

  /** Pointwise reading of `Painted`: each underlined scope carries its own drawing, every other key keeps its drawing. */
  lemma PaintedAt(m: map<string, Drawing>, done: set<Scope>, groups: map<Scope, seq<Region>>, nativeUnderline: bool)
    requires done <= groups.Keys
    ensures var p := Painted(m, done, groups, nativeUnderline);
      && (forall s :: s in done ==> p[MarkerKey(s)] == Drawn(s, groups[s], nativeUnderline))
      && (forall key :: key in m && key !in MarkerKeys(done) ==> p[key] == m[key])
  {
    assert forall s {:trigger MarkerKey(s)} :: |MarkerKey(s)| >= |KeyPrefix| && MarkerKey(s)[|KeyPrefix|..] == s;
  }

  /**
   * The drawn groups after erasing the group of every scope in `scopes`:
   * exactly those keys go, and every remaining key keeps its drawing.
   */
  function Erased(m: map<string, Drawing>, scopes: set<Scope>): (e: map<string, Drawing>)
    ensures e.Keys == m.Keys - MarkerKeys(scopes)
    ensures forall key :: key in e ==> e[key] == m[key]
  {
    m - MarkerKeys(scopes)
  }

  /**
   * `update_view_scopes`' erase set: nothing without a stored entry,
   * otherwise exactly the old scopes missing from the new (the test for
   * an empty stored set changes nothing), never one of the new scopes.
   */
  function Unused(oldScopes: Option<set<Scope>>, newScopes: set<Scope>): (u: set<Scope>)
    ensures oldScopes.None? ==> u == {}
    ensures oldScopes.Some? ==> u == oldScopes.value - newScopes
    ensures u !! newScopes
  {
    if oldScopes.Some? && oldScopes.value != {} then oldScopes.value - newScopes else {}
  }

  /**
   * The drawn groups after `highlight_urls`: underline every group, then
   * erase unused scopes. No key appears but the old ones and the groups'.
   */
  function AfterHighlight(m: map<string, Drawing>, oldScopes: Option<set<Scope>>, groups: map<Scope, seq<Region>>, nativeUnderline: bool): (r: map<string, Drawing>)
    ensures r.Keys <= m.Keys + MarkerKeys(groups.Keys)
  {
    Erased(Painted(m, groups.Keys, groups, nativeUnderline), Unused(oldScopes, groups.Keys))
  }

  /** `r` is `m` with the groups of the scopes in `done` underlined. */
  ghost predicate PaintedOver(r: map<string, Drawing>, m: map<string, Drawing>, done: set<Scope>, groups: map<Scope, seq<Region>>, nativeUnderline: bool)
    requires done <= groups.Keys
  {
    && r.Keys == m.Keys + MarkerKeys(done)
    && (forall s :: s in done ==> r[MarkerKey(s)] == Drawn(s, groups[s], nativeUnderline))
    && (forall key :: key in m && key !in MarkerKeys(done) ==> r[key] == m[key])
  }

  /** `PaintedOver` pins the map down: it is `Painted`. */
  lemma PaintedOverIsPainted(r: map<string, Drawing>, m: map<string, Drawing>, done: set<Scope>, groups: map<Scope, seq<Region>>, nativeUnderline: bool)
    requires done <= groups.Keys
    requires PaintedOver(r, m, done, groups, nativeUnderline)
    ensures r == Painted(m, done, groups, nativeUnderline)
  {
    var p := Painted(m, done, groups, nativeUnderline);
    PaintedAt(m, done, groups, nativeUnderline);
    forall key | key in r
      ensures r[key] == p[key]
    {
      if key in MarkerKeys(done) {
        var s :| s in done && MarkerKey(s) == key;
      }
    }
  }

  /** Underlining one more scope extends `PaintedOver` by that scope's group. */
  lemma PaintedStep(r: map<string, Drawing>, m: map<string, Drawing>, done: set<Scope>, s: Scope, groups: map<Scope, seq<Region>>, nativeUnderline: bool)
    requires done <= groups.Keys && s in groups && s !in done
    requires PaintedOver(r, m, done, groups, nativeUnderline)
    ensures PaintedOver(r[MarkerKey(s) := Drawn(s, groups[s], nativeUnderline)], m, done + {s}, groups, nativeUnderline)
  {
    var r' := r[MarkerKey(s) := Drawn(s, groups[s], nativeUnderline)];
    assert MarkerKeys(done + {s}) == MarkerKeys(done) + {MarkerKey(s)};
    forall t | t in done
      ensures r'[MarkerKey(t)] == Drawn(t, groups[t], nativeUnderline)
    {
      if MarkerKey(t) == MarkerKey(s) {
        MarkerKeyInjective(t, s);
      }
    }
  }

  lemma ErasedStep(m: map<string, Drawing>, done: set<Scope>, s: Scope)
    ensures Erased(m, done + {s}) == Erased(m, done) - {MarkerKey(s)}
  {
    assert MarkerKeys(done + {s}) == MarkerKeys(done) + {MarkerKey(s)};
  }

  /**
   * After highlighting, every present scope carries its own group, every
   * dropped scope's group is gone, and every other group is untouched.
   */
  lemma AfterHighlightSpec(m: map<string, Drawing>, oldScopes: Option<set<Scope>>, groups: map<Scope, seq<Region>>, nativeUnderline: bool)
    ensures var r := AfterHighlight(m, oldScopes, groups, nativeUnderline);
      && (forall s :: s in groups ==>
            MarkerKey(s) in r && r[MarkerKey(s)] == Drawn(s, groups[s], nativeUnderline))
      && (oldScopes.Some? ==> forall s :: s in oldScopes.value && s !in groups ==> MarkerKey(s) !in r)
      && (forall key :: key !in MarkerKeys(groups.Keys) && key !in MarkerKeys(Unused(oldScopes, groups.Keys)) ==>
            (key in r <==> key in m) && (key in r ==> r[key] == m[key]))
  {
    var p := Painted(m, groups.Keys, groups, nativeUnderline);
    var u := Unused(oldScopes, groups.Keys);
    PaintedAt(m, groups.Keys, groups, nativeUnderline);
    forall s | s in groups
      ensures MarkerKey(s) !in MarkerKeys(u)
    {
      MarkerKeysMember(s, u);
    }
    if oldScopes.Some? {
      forall s | s in oldScopes.value && s !in groups
        ensures MarkerKey(s) in MarkerKeys(u)
      {
        MarkerKeysMember(s, u);
      }
    }
  }

  /** Underlining groups that are already drawn as they would be changes nothing. */
  lemma PaintedIdle(r: map<string, Drawing>, groups: map<Scope, seq<Region>>, nativeUnderline: bool)
    requires forall s :: s in groups ==> MarkerKey(s) in r && r[MarkerKey(s)] == Drawn(s, groups[s], nativeUnderline)
    ensures Painted(r, groups.Keys, groups, nativeUnderline) == r
  {
    forall key | key in MarkerKeys(groups.Keys)
      ensures key in r
    {
      var s :| s in groups && MarkerKey(s) == key;
    }
    assert PaintedOver(r, r, groups.Keys, groups, nativeUnderline);
    PaintedOverIsPainted(r, r, groups.Keys, groups, nativeUnderline);
  }

  /** Highlighting groups already drawn, with those same scopes stored, changes nothing. */
  lemma AfterHighlightOnDrawn(r: map<string, Drawing>, groups: map<Scope, seq<Region>>, nativeUnderline: bool)
    requires forall s :: s in groups ==> MarkerKey(s) in r && r[MarkerKey(s)] == Drawn(s, groups[s], nativeUnderline)
    ensures AfterHighlight(r, Some(groups.Keys), groups, nativeUnderline) == r
  {
    PaintedIdle(r, groups, nativeUnderline);
    assert Unused(Some(groups.Keys), groups.Keys) == {};
    assert MarkerKeys({}) == {};
  }

  /** Highlighting the same groups a second time changes nothing. */
  lemma AfterHighlightIdempotent(m: map<string, Drawing>, oldScopes: Option<set<Scope>>, groups: map<Scope, seq<Region>>, nativeUnderline: bool)
    ensures var once := AfterHighlight(m, oldScopes, groups, nativeUnderline);
      AfterHighlight(once, Some(groups.Keys), groups, nativeUnderline) == once
  {
    AfterHighlightSpec(m, oldScopes, groups, nativeUnderline);
    AfterHighlightOnDrawn(AfterHighlight(m, oldScopes, groups, nativeUnderline), groups, nativeUnderline);
  }
}
