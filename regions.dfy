/**
 * The editor's text regions, as the plugin sees them: a pair of offsets
 * `a` and `b` (in either order), the text they cover, and the
 * one-character "empty region" expansion used to underline on
 * Sublime Text 2.
 */
module Regions {

  /** Sublime's `Region(a, b)`; `a` may be greater than `b`. */
  datatype Region = Region(a: int, b: int) {

    function Begin(): int { if a < b then a else b }

    function End(): int { if a < b then b else a }

    /** `Region.empty()`: the region covers no character. */
    predicate Empty() { a == b }

    function Size(): nat { End() - Begin() }

    /** `Region.contains(x)` for an offset: both ends are inclusive. */
    predicate ContainsPoint(x: int)
      ensures ContainsPoint(x) <==> (a <= x <= b || b <= x <= a)
    {
      Begin() <= x <= End()
    }

    /** `Region.contains(r)` for a region: both of its ends lie inside. */
    predicate ContainsRegion(r: Region)
      ensures ContainsRegion(r) <==> Begin() <= r.Begin() && r.End() <= End()
    {
      ContainsPoint(r.a) && ContainsPoint(r.b)
    }
  }

  function Clamp(x: int, n: nat): (c: nat)
    ensures c <= n
  {
    if x < 0 then 0 else if x > n then n else x
  }

  /** `view.substr(r)`: the text between the region's ends, cut to the buffer. */
  function Substr(text: string, r: Region): (s: string)
    ensures |s| <= r.Size()
    ensures 0 <= r.Begin() && r.End() <= |text| ==> |s| == r.Size()
  {
    var lo, hi := Clamp(r.Begin(), |text|), Clamp(r.End(), |text|);
    text[lo..hi]
  }

  /** How many offsets `range(r.a, r.b)` enumerates. */
  function RangeLen(r: Region): nat
  {
    if r.a < r.b then r.b - r.a else 0
  }

  /** The zero-width regions `Region(pos, pos)` for `pos in range(r.a, r.b)`. */
  function Points(r: Region): (ps: seq<Region>)
  {
    seq(RangeLen(r), i => Region(r.a + i, r.a + i))
  }

  /**
   * The Sublime Text 2 underline hack: every region becomes one empty
   * region per character position it covers, region after region.
   */
  function CharRegions(rs: seq<Region>): (c: seq<Region>)
    ensures forall i :: 0 <= i < |c| ==> c[i].Empty()
  {
    if rs == [] then [] else Points(rs[0]) + CharRegions(rs[1..])
  }

  function SumRangeLen(rs: seq<Region>): nat
  {
    if rs == [] then 0 else RangeLen(rs[0]) + SumRangeLen(rs[1..])
  }

  /** The expansion yields exactly one region per covered character. */
  lemma {:induction false} CharRegionsLength(rs: seq<Region>)
    ensures |CharRegions(rs)| == SumRangeLen(rs)
  {
    if rs != [] {
      CharRegionsLength(rs[1..]);
    }
  }

  /** The expansion of a concatenation is the concatenation of the expansions: order is kept. */
  lemma {:induction false} CharRegionsAppend(xs: seq<Region>, ys: seq<Region>)
    ensures CharRegions(xs + ys) == CharRegions(xs) + CharRegions(ys)
  {
    if xs == [] {
      assert xs + ys == ys;
    } else {
      assert (xs + ys)[1..] == xs[1..] + ys;
      CharRegionsAppend(xs[1..], ys);
    }
  }

  /** A region is produced exactly when it is empty and sits in `[a, b)` of some input region. */
  lemma {:induction false} CharRegionsMembership(rs: seq<Region>, p: Region)
    ensures p in CharRegions(rs) <==>
              p.Empty() && exists i :: 0 <= i < |rs| && rs[i].a <= p.a < rs[i].b
  {
    if rs != [] {
      CharRegionsMembership(rs[1..], p);
      if p in Points(rs[0]) {
        var k :| 0 <= k < |Points(rs[0])| && Points(rs[0])[k] == p;
        assert rs[0].a <= p.a < rs[0].b;
      }
      if p.Empty() && rs[0].a <= p.a < rs[0].b {
        assert Points(rs[0])[p.a - rs[0].a] == p;
      }
      if p.Empty() && exists i :: 0 <= i < |rs| && rs[i].a <= p.a < rs[i].b {
        var i :| 0 <= i < |rs| && rs[i].a <= p.a < rs[i].b;
        if i > 0 {
          assert rs[1..][i - 1] == rs[i];
        }
      }
      if exists i :: 0 <= i < |rs[1..]| && rs[1..][i].a <= p.a < rs[1..][i].b {
        var i :| 0 <= i < |rs[1..]| && rs[1..][i].a <= p.a < rs[1..][i].b;
        assert rs[i + 1] == rs[1..][i];
      }
    }
  }
}
