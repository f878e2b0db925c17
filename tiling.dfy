/** The tiling rule shared by both get_sky_coverage functions: snap the bounding box
    outward to the 10 degree grid, walk tile origins RA-major then Dec, and keep the
    tiles whose sub-box of the time raster holds a non-zero pixel. */
module Tiling {
  import opened SkyCoverage

  /** A time raster. anyNonZero(b) stands for "the raster cut to box b has a non-zero
      pixel"; box is the raster's own bounding box. */
  datatype TimeMap = TimeMap(box: Box, anyNonZero: Box -> bool)

  /** floor(v / 10) * 10: the largest multiple of 10 not above v. */
  function FloorToGrid(v: real): (r: int)
    ensures r % 10 == 0
    ensures r as real <= v < r as real + 10.0
  {
    (v / 10.0).Floor * 10
  }

  /** ceil(v / 10) * 10, with ceil(x) = -floor(-x): the least multiple of 10 not below v. */
  function CeilToGrid(v: real): (r: int)
    ensures r % 10 == 0
    ensures r as real - 10.0 < v <= r as real
  {
    -((-v / 10.0).Floor) * 10
  }

  lemma FloorToGridMonotone(a: real, b: real)
    requires a <= b
    ensures FloorToGrid(a) <= FloorToGrid(b)
  {
    var fa, fb := FloorToGrid(a), FloorToGrid(b);
    assert fa < fb + 10;
    assert fa / 10 < fb / 10 + 1;
  }

  lemma CeilToGridMonotone(a: real, b: real)
    requires a <= b
    ensures CeilToGrid(a) <= CeilToGrid(b)
  {
    var ca, cb := CeilToGrid(a), CeilToGrid(b);
    assert ca - 10 < cb;
    assert ca / 10 - 1 < cb / 10;
  }

  /** The snapped, grid-aligned bounds of a box. */
  datatype Bounds = Bounds(raMin: int, raMax: int, decMin: int, decMax: int)

  function Snap(box: Box): Bounds
  {
    Bounds(FloorToGrid(box.raMin), CeilToGrid(box.raMax), FloorToGrid(box.decMin), CeilToGrid(box.decMax))
  }

  /** np.arange(lo, hi, 10) on grid values. */
  function Arange(lo: int, hi: int): seq<int>
    decreases hi - lo
  {
    if lo < hi then [lo] + Arange(lo + 10, hi) else []
  }

  /** np.arange(lo, hi, 10) starts at lo, steps by 10, and stops before hi. */
  lemma {:induction false} ArangeValues(lo: int, hi: int)
    ensures forall i | 0 <= i < |Arange(lo, hi)| :: Arange(lo, hi)[i] == lo + 10 * i
    ensures forall i | 0 <= i < |Arange(lo, hi)| :: Arange(lo, hi)[i] < hi
    ensures lo < hi ==> |Arange(lo, hi)| > 0 && hi <= Arange(lo, hi)[|Arange(lo, hi)| - 1] + 10
    ensures lo >= hi ==> Arange(lo, hi) == []
    decreases hi - lo
  {
    if lo < hi {
      ArangeValues(lo + 10, hi);
    }
  }

  /** One value v is in np.arange(lo, hi, 10) iff it is a point lo + 10k below hi. */
  lemma ArangeHas(lo: int, hi: int, v: int)
    ensures v in Arange(lo, hi) <==> lo <= v < hi && (v - lo) % 10 == 0
  {
    var r := Arange(lo, hi);
    ArangeValues(lo, hi);
    if v in r {
      var i :| 0 <= i < |r| && r[i] == v;
      assert v == lo + 10 * i;
    }
    if lo <= v < hi && (v - lo) % 10 == 0 {
      var k := (v - lo) / 10;
      assert lo + 10 * k == v;
      assert k < |r|;
      assert r[k] == v;
    }
  }

  /** Python's int() on a float: truncation toward zero. */
  function Trunc(r: real): (t: int)
    ensures r >= 0.0 ==> t as real <= r < t as real + 1.0
    ensures r < 0.0 ==> t as real - 1.0 < r <= t as real
  {
    if r >= 0.0 then r.Floor else -((-r).Floor)
  }

  /** The sub-box [[dec, ra + 10], [dec + 10, ra]] handed to the raster for origin (ra, dec). */
  function SubBox(ra: int, dec: int): Box
  {
    Box(dec as real, (ra + 10) as real, (dec + 10) as real, ra as real)
  }

  /** The index pair emitted for origin (ra, dec): (int(ra / 10), int(dec / 10) + 9). */
  function TileAt(ra: int, dec: int): Tile
  {
    Tile(Trunc(ra as real / 10.0), Trunc(dec as real / 10.0) + 9)
  }

  /** On grid origins the index mapping is exact, and the sub-box tested is exactly
      the region of the emitted tile. */
  lemma TileAtOrigin(ra: int, dec: int)
    requires ra % 10 == 0 && dec % 10 == 0
    ensures TileAt(ra, dec) == Tile(ra / 10, dec / 10 + 9)
    ensures TileBox(TileAt(ra, dec)) == SubBox(ra, dec)
  {
    assert ra as real / 10.0 == (ra / 10) as real;
    assert dec as real / 10.0 == (dec / 10) as real;
  }

  /** The tiles kept for one RA origin, over the Dec origins in order. */
  function Column(ra: int, decs: seq<int>, observed: Box -> bool): seq<Tile>
  {
    if decs == [] then []
    else
      var dec := decs[|decs| - 1];
      Column(ra, decs[..|decs| - 1], observed) + (if observed(SubBox(ra, dec)) then [TileAt(ra, dec)] else [])
  }

  /** The tiles kept over all RA origins (outer) and Dec origins (inner). */
  function Sweep(ras: seq<int>, decs: seq<int>, observed: Box -> bool): seq<Tile>
  {
    if ras == [] then []
    else Sweep(ras[..|ras| - 1], decs, observed) + Column(ras[|ras| - 1], decs, observed)
  }

  lemma ColumnSnoc(ra: int, decs: seq<int>, dec: int, observed: Box -> bool)
    ensures Column(ra, decs + [dec], observed) ==
      Column(ra, decs, observed) + (if observed(SubBox(ra, dec)) then [TileAt(ra, dec)] else [])
  {
    assert (decs + [dec])[..|decs|] == decs;
  }

  lemma SweepSnoc(ras: seq<int>, ra: int, decs: seq<int>, observed: Box -> bool)
    ensures Sweep(ras + [ra], decs, observed) == Sweep(ras, decs, observed) + Column(ra, decs, observed)
  {
    assert (ras + [ra])[..|ras|] == ras;
  }

  /** The tile list get_sky_coverage returns for a box and a raster. */
  function CoverageOf(box: Box, observed: Box -> bool): seq<Tile>
  {
    var s := Snap(box);
    Sweep(Arange(s.raMin, s.raMax), Arange(s.decMin, s.decMax), observed)
  }

  /** Tile t's origin is one of the candidate origins of the snapped bounds. */
  predicate IsCandidate(s: Bounds, t: Tile)
  {
    s.raMin <= 10 * t.x < s.raMax && s.decMin <= 10 * t.y - 90 < s.decMax
  }

  predicate OnGrid(s: seq<int>)
  {
    forall i | 0 <= i < |s| :: s[i] % 10 == 0
  }

  predicate Increasing(s: seq<int>)
  {
    forall i, j | 0 <= i < j < |s| :: s[i] < s[j]
  }

  /** Lexicographic order on (x, y), x first. */
  predicate TileBefore(a: Tile, b: Tile)
  {
    a.x < b.x || (a.x == b.x && a.y < b.y)
  }

  predicate StrictlySorted(ts: seq<Tile>)
  {
    forall i, j | 0 <= i < j < |ts| :: TileBefore(ts[i], ts[j])
  }

  lemma {:induction false} ColumnMembers(ra: int, decs: seq<int>, observed: Box -> bool)
    requires ra % 10 == 0 && OnGrid(decs)
    ensures forall t :: t in Column(ra, decs, observed) <==>
      10 * t.x == ra && (10 * t.y - 90) in decs && observed(TileBox(t))
  {
    if decs != [] {
      var n := |decs| - 1;
      var pre := decs[..n];
      ColumnMembers(ra, pre, observed);
      TileAtOrigin(ra, decs[n]);
      assert decs == pre + [decs[n]];
    }
  }

  lemma {:induction false} SweepMembers(ras: seq<int>, decs: seq<int>, observed: Box -> bool)
    requires OnGrid(ras) && OnGrid(decs)
    ensures forall t :: t in Sweep(ras, decs, observed) <==>
      (10 * t.x) in ras && (10 * t.y - 90) in decs && observed(TileBox(t))
  {
    if ras != [] {
      var n := |ras| - 1;
      var pre := ras[..n];
      SweepMembers(pre, decs, observed);
      ColumnMembers(ras[n], decs, observed);
      assert ras == pre + [ras[n]];
    }
  }

  lemma SortedAppend(a: seq<Tile>, b: seq<Tile>)
    requires StrictlySorted(a) && StrictlySorted(b)
    requires forall u, v | u in a && v in b :: TileBefore(u, v)
    ensures StrictlySorted(a + b)
  {
    var c := a + b;
    forall i, j | 0 <= i < j < |c| ensures TileBefore(c[i], c[j]) {
      if j < |a| {
        assert c[i] == a[i] && c[j] == a[j];
      } else if i >= |a| {
        assert c[i] == b[i - |a|] && c[j] == b[j - |a|];
      } else {
        assert c[i] in a && c[j] in b;
      }
    }
  }

  lemma {:induction false} ColumnSorted(ra: int, decs: seq<int>, observed: Box -> bool)
    requires ra % 10 == 0 && OnGrid(decs) && Increasing(decs)
    ensures StrictlySorted(Column(ra, decs, observed))
  {
    if decs != [] {
      var n := |decs| - 1;
      var pre := decs[..n];
      ColumnSorted(ra, pre, observed);
      ColumnMembers(ra, pre, observed);
      TileAtOrigin(ra, decs[n]);
      var last := if observed(SubBox(ra, decs[n])) then [TileAt(ra, decs[n])] else [];
      forall u, v | u in Column(ra, pre, observed) && v in last ensures TileBefore(u, v) {
        var k :| 0 <= k < |pre| && pre[k] == 10 * u.y - 90;
        assert decs[k] < decs[n];
      }
      SortedAppend(Column(ra, pre, observed), last);
    }
  }

  lemma {:induction false} SweepSorted(ras: seq<int>, decs: seq<int>, observed: Box -> bool)
    requires OnGrid(ras) && Increasing(ras) && OnGrid(decs) && Increasing(decs)
    ensures StrictlySorted(Sweep(ras, decs, observed))
  {
    if ras != [] {
      var n := |ras| - 1;
      var pre := ras[..n];
      SweepSorted(pre, decs, observed);
      SweepMembers(pre, decs, observed);
      ColumnSorted(ras[n], decs, observed);
      ColumnMembers(ras[n], decs, observed);
      forall u, v | u in Sweep(pre, decs, observed) && v in Column(ras[n], decs, observed)
        ensures TileBefore(u, v)
      {
        var k :| 0 <= k < |pre| && pre[k] == 10 * u.x;
        assert ras[k] < ras[n];
      }
      SortedAppend(Sweep(pre, decs, observed), Column(ras[n], decs, observed));
    }
  }

  lemma ArangeOnGrid(lo: int, hi: int)
    requires lo % 10 == 0
    ensures OnGrid(Arange(lo, hi)) && Increasing(Arange(lo, hi))
  {
    ArangeValues(lo, hi);
  }

  /** Tile t's origin is among the candidate origins iff t is a candidate of the snapped box. */
  lemma CandidateOrigin(box: Box, t: Tile)
    ensures var s := Snap(box);
      ((10 * t.x) in Arange(s.raMin, s.raMax) && (10 * t.y - 90) in Arange(s.decMin, s.decMax))
        <==> IsCandidate(s, t)
  {
    var s := Snap(box);
    ArangeHas(s.raMin, s.raMax, 10 * t.x);
    ArangeHas(s.decMin, s.decMax, 10 * t.y - 90);
  }

  /** A tile is returned iff its origin is a candidate of the snapped box and the raster
      has a non-zero pixel in the tile's own region. */
  lemma CoverageMembers(box: Box, observed: Box -> bool)
    ensures forall t :: t in CoverageOf(box, observed) <==>
      IsCandidate(Snap(box), t) && observed(TileBox(t))
  {
    var s := Snap(box);
    var ras, decs := Arange(s.raMin, s.raMax), Arange(s.decMin, s.decMax);
    ArangeOnGrid(s.raMin, s.raMax);
    ArangeOnGrid(s.decMin, s.decMax);
    SweepMembers(ras, decs, observed);
    forall t ensures t in CoverageOf(box, observed) <==> IsCandidate(s, t) && observed(TileBox(t)) {
      CandidateOrigin(box, t);
    }
  }

  /** The list is strictly increasing in (x, y), x outer, hence free of duplicates. */
  lemma CoverageSorted(box: Box, observed: Box -> bool)
    ensures StrictlySorted(CoverageOf(box, observed))
    ensures Distinct(CoverageOf(box, observed))
  {
    var s := Snap(box);
    ArangeOnGrid(s.raMin, s.raMax);
    ArangeOnGrid(s.decMin, s.decMax);
    SweepSorted(Arange(s.raMin, s.raMax), Arange(s.decMin, s.decMax), observed);
  }

  lemma {:induction false} ColumnEmpty(ra: int, decs: seq<int>, observed: Box -> bool)
    requires decs == [] || forall b :: !observed(b)
    ensures Column(ra, decs, observed) == []
  {
    if decs != [] {
      ColumnEmpty(ra, decs[..|decs| - 1], observed);
    }
  }

  lemma {:induction false} SweepEmpty(ras: seq<int>, decs: seq<int>, observed: Box -> bool)
    requires ras == [] || decs == [] || forall b :: !observed(b)
    ensures Sweep(ras, decs, observed) == []
  {
    if ras != [] {
      SweepEmpty(ras[..|ras| - 1], decs, observed);
      ColumnEmpty(ras[|ras| - 1], decs, observed);
    }
  }

  /** An all-zero raster yields no tiles. */
  lemma EmptyRasterNoTiles(box: Box, observed: Box -> bool)
    requires forall b :: !observed(b)
    ensures CoverageOf(box, observed) == []
  {
    var s := Snap(box);
    SweepEmpty(Arange(s.raMin, s.raMax), Arange(s.decMin, s.decMax), observed);
  }

  /** An empty RA or Dec range of origins yields no tiles. */
  lemma EmptyRangeNoTiles(box: Box, observed: Box -> bool)
    requires Snap(box).raMin >= Snap(box).raMax || Snap(box).decMin >= Snap(box).decMax
    ensures CoverageOf(box, observed) == []
  {
    var s := Snap(box);
    SweepEmpty(Arange(s.raMin, s.raMax), Arange(s.decMin, s.decMax), observed);
  }

  /** The index pair of each returned tile is the tile its grid origin falls in, so the
      tiler's ra / 10, dec / 10 + 9 agree with the table's documented tile of a position. */
  lemma CoverageTilesContainTheirOrigin(box: Box, observed: Box -> bool)
    ensures forall t | t in CoverageOf(box, observed) ::
      TileContaining((10 * t.x) as real, (10 * t.y - 90) as real) == t
  {
    forall t | t in CoverageOf(box, observed)
      ensures TileContaining((10 * t.x) as real, (10 * t.y - 90) as real) == t
    {
      TileContainingIsUnique((10 * t.x) as real, (10 * t.y - 90) as real, t);
    }
  }

  /** A box inside RA [0, 360] and Dec [-90, 90] yields tiles of the documented index space. */
  lemma CoverageInIndexSpace(box: Box, observed: Box -> bool)
    requires 0.0 <= box.raMin && box.raMax <= 360.0
    requires -90.0 <= box.decMin && box.decMax <= 90.0
    ensures forall t | t in CoverageOf(box, observed) :: InIndexSpace(t)
  {
    CoverageMembers(box, observed);
    var s := Snap(box);
    assert 0 <= s.raMin && s.raMax <= 360;
    assert -90 <= s.decMin && s.decMax <= 90;
  }

  /** Two boxes with the same snapped bounds give the same tile list. */
  lemma SameSnapSameTiles(a: Box, b: Box, observed: Box -> bool)
    requires Snap(a) == Snap(b)
    ensures CoverageOf(a, observed) == CoverageOf(b, observed)
  {
  }

  /** A grid value snaps to itself in both directions. */
  lemma GridValueIsFixed(r: int)
    requires r % 10 == 0
    ensures FloorToGrid(r as real) == r && CeilToGrid(r as real) == r
  {
    var f, c := FloorToGrid(r as real), CeilToGrid(r as real);
    assert f / 10 * 10 == f && r / 10 * 10 == r && c / 10 * 10 == c;
    assert f / 10 <= r / 10 < f / 10 + 1;
    assert c / 10 - 1 < r / 10 <= c / 10;
  }

  /** The box spanned by the snapped bounds. */
  function SnappedBox(box: Box): Box
  {
    var s := Snap(box);
    Box(s.decMin as real, s.raMax as real, s.decMax as real, s.raMin as real)
  }

  /** Snapping is idempotent, so the tile list of a box is that of its snapped box: only
      the grid cells its edges fall in matter. */
  lemma SnappedBoxSameTiles(box: Box, observed: Box -> bool)
    ensures Snap(SnappedBox(box)) == Snap(box)
    ensures CoverageOf(SnappedBox(box), observed) == CoverageOf(box, observed)
  {
    var s := Snap(box);
    GridValueIsFixed(s.raMin);
    GridValueIsFixed(s.raMax);
    GridValueIsFixed(s.decMin);
    GridValueIsFixed(s.decMax);
  }

  /** outer contains inner. */
  predicate Encloses(outer: Box, inner: Box)
  {
    outer.raMin <= inner.raMin && inner.raMax <= outer.raMax &&
    outer.decMin <= inner.decMin && inner.decMax <= outer.decMax
  }

  /** With the raster fixed, enlarging the box never removes a tile. */
  lemma EnlargingKeepsTiles(inner: Box, outer: Box, observed: Box -> bool)
    requires Encloses(outer, inner)
    ensures forall t | t in CoverageOf(inner, observed) :: t in CoverageOf(outer, observed)
  {
    CoverageMembers(inner, observed);
    CoverageMembers(outer, observed);
    FloorToGridMonotone(outer.raMin, inner.raMin);
    FloorToGridMonotone(outer.decMin, inner.decMin);
    CeilToGridMonotone(inner.raMax, outer.raMax);
    CeilToGridMonotone(inner.decMax, outer.decMax);
  }

  /** A box with Dec [-40, -10] and RA [30, 70] over a raster that is non-zero
      everywhere gives exactly the tiles x in 3..6, y in 5..7. */
  lemma NonWrappingBoxTiles(observed: Box -> bool)
    requires forall b :: observed(b)
    ensures forall t :: t in CoverageOf(Box(-40.0, 70.0, -10.0, 30.0), observed) <==>
      3 <= t.x <= 6 && 5 <= t.y <= 7
  {
    CoverageMembers(Box(-40.0, 70.0, -10.0, 30.0), observed);
  }

  /** RA is not wrapped: a box from RA -40 to 40 over a full raster yields x in -4..3,
      not 32..35 for the part west of RA 0. */
  lemma SeamBoxTilesAreNotWrapped(observed: Box -> bool)
    requires forall b :: observed(b)
    ensures forall t :: t in CoverageOf(Box(-40.0, 40.0, 40.0, -40.0), observed) <==>
      -4 <= t.x <= 3 && 5 <= t.y <= 12
  {
    CoverageMembers(Box(-40.0, 40.0, 40.0, -40.0), observed);
  }
}
