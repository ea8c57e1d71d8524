/** How a module's array of 8-bit counters is split into page-sized regions. */
module Regions {
  import opened Bits

  const ADDRESS_BITS: nat := 64

  /** One past the largest address. */
  const ADDRESS_SPACE: nat := Pow2(ADDRESS_BITS)

  /** Counters from `start` up to, not including, `stop`. */
  datatype Region = Region(start: nat, stop: nat, enabled: bool, oneFullPage: bool)

  // `page` is the page size, a power of two.

  function RoundDownByPage(p: nat, page: nat): nat
    requires 0 < page <= ADDRESS_SPACE
  {
    And(p, ADDRESS_SPACE - page)
  }

  function RoundUpByPage(p: nat, page: nat): nat
    requires 0 < page <= ADDRESS_SPACE
  {
    RoundDownByPage(Wrap(p + (page - 1)), page)
  }

  function Wrap(p: nat): nat {
    p % ADDRESS_SPACE
  }

  ghost predicate IsPageSize(page: nat) {
    0 < page < ADDRESS_SPACE && exists k: nat :: k < ADDRESS_BITS && page == Pow2(k)
  }

  lemma RoundDownIs(p: nat, page: nat)
    requires IsPageSize(page) && p < ADDRESS_SPACE
    ensures page < ADDRESS_SPACE
    ensures RoundDownByPage(p, page) == p - p % page
  {
    hide And, Pow2;
    var k: nat :| k < ADDRESS_BITS && page == Pow2(k);
    Pow2Grows(k, ADDRESS_BITS);
    AndHighBits(p, ADDRESS_BITS, k);
  }

  /** Full pages from `from` up to `to`. */
  function Pages(from: nat, to: nat, page: nat): seq<Region>
    requires page > 0
    decreases if from < to then to - from else 0
  {
    if from >= to then [] else [Region(from, from + page, true, true)] + Pages(from + page, to, page)
  }

  /** The regions lie end to end and make up [start, stop). */
  ghost predicate Tile(regions: seq<Region>, start: nat, stop: nat) {
    && regions != [] && regions[0].start == start && regions[|regions| - 1].stop == stop
    && (forall i | 0 <= i < |regions| :: regions[i].start <= regions[i].stop && regions[i].enabled)
    && (forall i | 0 <= i < |regions| - 1 :: regions[i].stop == regions[i + 1].start)
  }

  /** Every region but maybe the first and the last is one full page; a region marked so is an aligned page. */
  ghost predicate PageAligned(regions: seq<Region>, page: nat)
    requires page > 0
  {
    && (forall i | 0 < i < |regions| - 1 :: regions[i].oneFullPage)
    && (forall i | 0 <= i < |regions| && regions[i].oneFullPage ::
          regions[i].stop == regions[i].start + page && regions[i].start % page == 0)
  }

  function NumFullPages(up: nat, down: nat, page: nat): nat
    requires page > 0
  {
    if down > up then (down - up) / page else 0
  }

  /** The regions of [start, stop), whose start rounds up to `up` and whose stop rounds down to `down`. */
  function Layout(start: nat, stop: nat, up: nat, down: nat, page: nat): seq<Region>
    requires page > 0
  {
    (if start < up || NumFullPages(up, down, page) == 0 then [Region(start, if up < stop then up else stop, true, false)] else [])
    + Pages(up, down, page)
    + (if stop > down >= up then [Region(down, stop, true, false)] else [])
  }

  function RegionsOf(start: nat, stop: nat, page: nat): seq<Region>
    requires 0 < page <= ADDRESS_SPACE
  {
    Layout(start, stop, RoundUpByPage(start, page), RoundDownByPage(stop, page), page)
  }

  ghost predicate FullPages(ps: seq<Region>, page: nat)
    requires page > 0
  {
    forall i | 0 <= i < |ps| :: ps[i].oneFullPage && ps[i].stop == ps[i].start + page && ps[i].start % page == 0
  }

  lemma {:induction false} PagesTile(a: nat, b: nat, page: nat)
    requires page > 0 && a < b
    decreases b - a
    ensures a * page + page <= b * page
    ensures Tile(Pages(a * page, b * page, page), a * page, b * page)
    ensures FullPages(Pages(a * page, b * page, page), page)
    ensures |Pages(a * page, b * page, page)| == b - a
  {
    assert (a + 1) * page == a * page + page;
    ModUnique(a * page, page, a, 0);
    if a + 1 < b {
      PagesTile(a + 1, b, page);
    } else {
      assert Pages(b * page, b * page, page) == [];
    }
  }

  lemma PageBounds(page: nat)
    requires IsPageSize(page)
    ensures 0 < page && 2 * page <= ADDRESS_SPACE
  {
    var k: nat :| k < ADDRESS_BITS && page == Pow2(k);
    Pow2Grows(k, ADDRESS_BITS);
  }

  lemma DivMod(p: nat, page: nat)
    requires page > 0
    ensures p - p % page == (p / page) * page
  {
  }

  lemma WrapsOnce(p: nat)
    requires p < 2 * ADDRESS_SPACE
    ensures Wrap(p) == if p < ADDRESS_SPACE then p else p - ADDRESS_SPACE
  {
    hide Pow2;
    ModUnique(p, ADDRESS_SPACE, if p < ADDRESS_SPACE then 0 else 1, if p < ADDRESS_SPACE then p else p - ADDRESS_SPACE);
  }

  lemma RoundDownBounds(p: nat, page: nat) returns (b: nat)
    requires IsPageSize(page) && p < ADDRESS_SPACE
    ensures 2 * page <= ADDRESS_SPACE && RoundDownByPage(p, page) == b * page <= p < b * page + page
  {
    hide Pow2, RoundDownByPage, IsPageSize;
    PageBounds(page);
    RoundDownIs(p, page);
    DivMod(p, page);
    b := p / page;
  }

  lemma RoundUpBounds(p: nat, page: nat) returns (a: nat)
    requires IsPageSize(page) && p + page <= ADDRESS_SPACE
    ensures 2 * page <= ADDRESS_SPACE && RoundUpByPage(p, page) == a * page && p <= a * page < p + page
  {
    hide Pow2, Wrap, RoundDownByPage, IsPageSize;
    PageBounds(page);
    WrapsOnce(p + (page - 1));
    a := RoundDownBounds(p + (page - 1), page);
  }

  /** Within reach of the last page the rounding up wraps around to address 0. */
  lemma RoundUpWraps(p: nat, page: nat)
    requires IsPageSize(page) && p < ADDRESS_SPACE < p + page
    ensures 2 * page <= ADDRESS_SPACE && RoundUpByPage(p, page) == 0
  {
    hide Pow2, Wrap, RoundDownByPage, IsPageSize;
    PageBounds(page);
    WrapsOnce(p + (page - 1));
    var b := RoundDownBounds(p + (page - 1) - ADDRESS_SPACE, page);
    Multiple(page, b);
  }

  lemma LastPage(p: nat, page: nat)
    requires IsPageSize(page) && p < ADDRESS_SPACE < p + page
    ensures 2 * page <= ADDRESS_SPACE && RoundDownByPage(p, page) >= page
  {
    hide Pow2, RoundDownByPage, IsPageSize;
    var b := RoundDownBounds(p, page);
    Multiple(page, b);
  }

  /** Two neighbouring tilings make one. */
  lemma TileJoins(left: seq<Region>, right: seq<Region>, a: nat, b: nat, c: nat)
    requires Tile(left, a, b) && Tile(right, b, c)
    ensures Tile(left + right, a, c)
  {
    forall i | 0 <= i < |left + right| - 1
      ensures (left + right)[i].stop == (left + right)[i + 1].start
    {
      if i < |left| - 1 {
        assert left[i].stop == left[i + 1].start;
      } else if i >= |left| {
        assert right[i - |left|].stop == right[i - |left| + 1].start;
      }
    }
  }

  /** The regions of a module tile its counters exactly when rounding its start up to a page does not wrap around. */
  lemma RegionsTile(start: nat, stop: nat, page: nat)
    requires IsPageSize(page) && start < stop < ADDRESS_SPACE
    ensures 2 * page <= ADDRESS_SPACE
    ensures Tile(RegionsOf(start, stop, page), start, stop) <==> start + page <= ADDRESS_SPACE
    ensures start + page <= ADDRESS_SPACE ==> PageAligned(RegionsOf(start, stop, page), page)
    ensures start + page > ADDRESS_SPACE ==> Tile(RegionsOf(start, stop, page), 0, stop)
  {
    hide Pow2, RoundUpByPage, RoundDownByPage, IsPageSize, Tile, PageAligned, Layout;
    var b := RoundDownBounds(stop, page);
    if start + page <= ADDRESS_SPACE {
      var a := RoundUpBounds(start, page);
      LayoutTiles(start, stop, page, a, b);
    } else {
      RoundUpWraps(start, page);
      LastPage(stop, page);
      StartsAtZero(start, stop, RoundDownByPage(stop, page), page);
      TilesFromZero(start, stop, b, page);
    }
  }

  lemma StartsAtZero(start: nat, stop: nat, down: nat, page: nat)
    requires 0 < start && 0 < page <= down
    ensures !Tile(Layout(start, stop, 0, down, page), start, stop)
  {
    AtLeastOne(down, page);
    assert Layout(start, stop, 0, down, page)[0] == Region(0, page, true, true);
  }

  lemma TilesFromZero(start: nat, stop: nat, b: nat, page: nat)
    requires 0 < page <= b * page <= stop < b * page + page
    ensures Tile(Layout(start, stop, 0, b * page, page), 0, stop)
  {
    AtLeastOne(b * page, page);
    assert Layout(start, stop, 0, b * page, page) == Layout(0, stop, 0, b * page, page);
    hide Layout, Tile, PageAligned;
    assert 0 == 0 * page;
    LayoutTiles(0, stop, page, 0, b);
  }

  lemma AtLeastOne(x: nat, page: nat)
    requires 0 < page <= x
    ensures x / page > 0
  {
  }

  lemma LayoutTiles(start: nat, stop: nat, page: nat, a: nat, b: nat)
    requires 0 < page && start < stop
    requires start <= a * page < start + page && b * page <= stop < b * page + page
    ensures Tile(Layout(start, stop, a * page, b * page, page), start, stop)
    ensures PageAligned(Layout(start, stop, a * page, b * page, page), page)
  {
    hide Tile, PageAligned, Layout, Pages, FullPages;
    if b > a {
      PagesTile(a, b, page);
      AtLeastOne(b * page - a * page, page);
      Framed(start, stop, a * page, b * page, page);
    } else {
      Multiple(page, b - a);
      NoFullPage(start, stop, a * page, b * page, page);
    }
  }

  lemma NoFullPage(start: nat, stop: nat, up: nat, down: nat, page: nat)
    requires 0 < page && start < stop
    requires start <= up < start + page && down <= stop < down + page && (down == up || down + page <= up)
    ensures Tile(Layout(start, stop, up, down, page), start, stop)
    ensures PageAligned(Layout(start, stop, up, down, page), page)
  {
    assert Pages(up, down, page) == [];
  }

  /** Full pages with what is left before and after them. */
  lemma Framed(start: nat, stop: nat, up: nat, down: nat, page: nat)
    requires 0 < page && start < stop
    requires start <= up < down <= stop && (down - up) / page > 0
    requires Tile(Pages(up, down, page), up, down) && FullPages(Pages(up, down, page), page)
    ensures Tile(Layout(start, stop, up, down, page), start, stop)
    ensures PageAligned(Layout(start, stop, up, down, page), page)
  {
    hide Pages, Tile;
    var ps := Pages(up, down, page);
    var first := if start < up then [Region(start, up, true, false)] else [];
    var last := if stop > down then [Region(down, stop, true, false)] else [];
    assert Layout(start, stop, up, down, page) == first + ps + last;
    hide Layout;
    if first != [] {
      TileOne(start, up);
      TileJoins(first, ps, start, up, down);
    } else {
      assert first + ps == ps;
    }
    if last != [] {
      TileOne(down, stop);
      TileJoins(first + ps, last, start, down, stop);
    } else {
      assert first + ps + last == first + ps;
    }
  }

  lemma TileOne(a: nat, b: nat)
    requires a <= b
    ensures Tile([Region(a, b, true, false)], a, b)
  {
  }

  /** The number of full pages is what the division gives. */
  lemma PagesCount(start: nat, stop: nat, page: nat)
    requires IsPageSize(page) && start < ADDRESS_SPACE && stop < ADDRESS_SPACE
    ensures page < ADDRESS_SPACE
    ensures var up, down := RoundUpByPage(start, page), RoundDownByPage(stop, page);
            |Pages(up, down, page)| == NumFullPages(up, down, page)
  {
    hide Pow2, RoundUpByPage, RoundDownByPage, IsPageSize, Pages;
    var b := RoundDownBounds(stop, page);
    var a := 0;
    if start + page <= ADDRESS_SPACE {
      a := RoundUpBounds(start, page);
    } else {
      RoundUpWraps(start, page);
      assert 0 == 0 * page;
    }
    PagesCountAt(a, b, page);
  }

  lemma PagesCountAt(a: nat, b: nat, page: nat)
    requires page > 0
    ensures |Pages(a * page, b * page, page)| == NumFullPages(a * page, b * page, page)
  {
    hide Pages, NumFullPages, Tile, FullPages;
    Scaled(a, b, page);
    if b > a {
      PagesTile(a, b, page);
      FullPagesIs(a * page, b * page, page, b - a);
    } else {
      NoPages(a * page, b * page, page);
    }
  }

  lemma Scaled(a: nat, b: nat, page: nat)
    requires page > 0
    ensures b * page - a * page == page * (b - a)
    ensures if a < b then a * page < b * page else b * page <= a * page
  {
    Multiple(page, b - a);
  }

  lemma FullPagesIs(up: nat, down: nat, page: nat, n: nat)
    requires page > 0 && up < down && down - up == page * n
    ensures NumFullPages(up, down, page) == n
  {
    ModUnique(down - up, page, n, 0);
  }

  lemma NoPages(up: nat, down: nat, page: nat)
    requires page > 0 && down <= up
    ensures Pages(up, down, page) == [] && NumFullPages(up, down, page) == 0
  {
  }
}
