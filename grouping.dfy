/**
 * Grouping of found URL regions by the lexical scope at their start
 * offset: Sublime colours an underline by a single scope, so each scope
 * gets its own marker group.
 */
module Grouping {
  import opened Regions

  /** A lexical scope label, as `view.scope_name` returns it. */
  type Scope = string

  /** The distinct scope labels at the start offsets of `urls`. */
  function ScopesOf(scopeName: int -> Scope, urls: seq<Region>): (ks: set<Scope>)
    ensures forall i :: 0 <= i < |urls| ==> scopeName(urls[i].a) in ks
  {
    set u | u in urls :: scopeName(u.a)
  }

  /** The regions of `urls` whose start offset lies in scope `k`, in their original order. */
  function InScope(scopeName: int -> Scope, urls: seq<Region>, k: Scope): (g: seq<Region>)
    ensures |g| <= |urls|
    ensures forall i :: 0 <= i < |g| ==> g[i] in urls && scopeName(g[i].a) == k
  {
    if urls == [] then []
    else (if scopeName(urls[0].a) == k then [urls[0]] else []) + InScope(scopeName, urls[1..], k)
  }

  /** The scope map: one group per scope label present, holding that scope's regions. */
  function Groups(scopeName: int -> Scope, urls: seq<Region>): (g: map<Scope, seq<Region>>)
    ensures forall k :: k in g ==> forall i :: 0 <= i < |g[k]| ==> scopeName(g[k][i].a) == k
  {
    map k | k in ScopesOf(scopeName, urls) :: InScope(scopeName, urls, k)
  }

  /** Filtering distributes over concatenation, so relative order is preserved. */
  lemma {:induction false} InScopeAppend(scopeName: int -> Scope, xs: seq<Region>, ys: seq<Region>, k: Scope)
    ensures InScope(scopeName, xs + ys, k) == InScope(scopeName, xs, k) + InScope(scopeName, ys, k)
  {
    if xs == [] {
      assert xs + ys == ys;
    } else {
      var zs := xs + ys;
      assert zs[0] == xs[0] && zs[1..] == xs[1..] + ys;
      var head := if scopeName(xs[0].a) == k then [xs[0]] else [];
      assert InScope(scopeName, zs, k) == head + InScope(scopeName, zs[1..], k);
      InScopeAppend(scopeName, xs[1..], ys, k);
      assert InScope(scopeName, xs, k) == head + InScope(scopeName, xs[1..], k);
    }
  }

  /**
   * Each region goes, with all its occurrences, into the group of its own
   * scope and into no other group.
   */
  lemma {:induction false} InScopeCount(scopeName: int -> Scope, urls: seq<Region>, k: Scope, r: Region)
    ensures multiset(InScope(scopeName, urls, k))[r] ==
              if scopeName(r.a) == k then multiset(urls)[r] else 0
  {
    if urls != [] {
      InScopeCount(scopeName, urls[1..], k, r);
      assert urls == [urls[0]] + urls[1..];
    }
  }

  /** A scope's group is non-empty exactly when the scope occurs among the start offsets. */
  lemma {:induction false} InScopeNonEmpty(scopeName: int -> Scope, urls: seq<Region>, k: Scope)
    ensures InScope(scopeName, urls, k) != [] <==> k in ScopesOf(scopeName, urls)
  {
    if urls != [] {
      InScopeNonEmpty(scopeName, urls[1..], k);
      assert urls == [urls[0]] + urls[1..];
      assert ScopesOf(scopeName, urls) == {scopeName(urls[0].a)} + ScopesOf(scopeName, urls[1..]);
    }
  }

  /**
   * The groups partition the region list: the keys are the scopes present,
   * no group is empty, and every group holds exactly the regions of its
   * scope with their multiplicities.
   */
  lemma GroupsPartition(scopeName: int -> Scope, urls: seq<Region>)
    ensures Groups(scopeName, urls).Keys == ScopesOf(scopeName, urls)
    ensures forall k :: k in Groups(scopeName, urls) ==> Groups(scopeName, urls)[k] != []
    ensures forall k, r :: k in Groups(scopeName, urls) ==>
              multiset(Groups(scopeName, urls)[k])[r] ==
                if scopeName(r.a) == k then multiset(urls)[r] else 0
    ensures forall r :: r in urls ==> scopeName(r.a) in Groups(scopeName, urls)
  {
    forall k | k in Groups(scopeName, urls)
      ensures Groups(scopeName, urls)[k] != []
    {
      InScopeNonEmpty(scopeName, urls, k);
    }
    forall k, r | k in Groups(scopeName, urls)
      ensures multiset(Groups(scopeName, urls)[k])[r] ==
                if scopeName(r.a) == k then multiset(urls)[r] else 0
    {
      InScopeCount(scopeName, urls, k, r);
    }
  }

  /** Appending one region extends (or creates) exactly the group of its scope. */
  lemma GroupsSnoc(scopeName: int -> Scope, urls: seq<Region>, u: Region)
    ensures var g, s := Groups(scopeName, urls), scopeName(u.a);
      Groups(scopeName, urls + [u]) == g[s := (if s in g then g[s] else []) + [u]]
  {
    var g, s := Groups(scopeName, urls), scopeName(u.a);
    var g' := Groups(scopeName, urls + [u]);
    var expected := g[s := (if s in g then g[s] else []) + [u]];
    assert ScopesOf(scopeName, urls + [u]) == ScopesOf(scopeName, urls) + {s};
    forall k | k in g'
      ensures g'[k] == expected[k]
    {
      InScopeAppend(scopeName, urls, [u], k);
      assert InScope(scopeName, [u], k) == (if s == k then [u] else []) + InScope(scopeName, [], k);
      InScopeNonEmpty(scopeName, urls, k);
    }
  }

  /** The groups of one more region of `urls`: the group of that region's scope grows by it. */
  lemma GroupsPrefix(scopeName: int -> Scope, urls: seq<Region>, i: nat)
    requires i < |urls|
    ensures var g, s := Groups(scopeName, urls[..i]), scopeName(urls[i].a);
      Groups(scopeName, urls[..i + 1]) == g[s := (if s in g then g[s] else []) + [urls[i]]]
  {
    GroupsSnoc(scopeName, urls[..i], urls[i]);
    assert urls[..i + 1] == urls[..i] + [urls[i]];
  }

  /**
   * `highlight_urls`' first loop: `scope_map.setdefault(scope, []).append(url)`
   * for every url in turn.
   */
  method CollectByScope(scopeName: int -> Scope, urls: seq<Region>) returns (scopeMap: map<Scope, seq<Region>>)
    ensures scopeMap == Groups(scopeName, urls)
  {
    scopeMap := map[];
    var i := 0;
    assert ScopesOf(scopeName, urls[..0]) == {};
    while i < |urls|
      invariant 0 <= i <= |urls|
      invariant scopeMap == Groups(scopeName, urls[..i])
    {
      var s := scopeName(urls[i].a);
      var group := if s in scopeMap then scopeMap[s] else [];
      GroupsPrefix(scopeName, urls, i);
      scopeMap := scopeMap[s := group + [urls[i]]];
      i := i + 1;
    }
    assert urls[..i] == urls;
  }
}
