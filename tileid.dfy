/** Tile ids: the number of tiles on all lower zoom levels plus the distance of
    the tile along its zoom level's Hilbert curve (`TileId` in tileid.rs). */
module TileIds {
  import opened Ints

  /** The largest zoom the source's arithmetic supports: `4u64.pow(32)` and
      `1u32 << 32` overflow. */
  const MAX_ZOOM: nat := 31

  /** `TileId::new(v)` is the constructor and `value()` the field, so
      `TileId::new(v).value() == v` holds by construction. */
  datatype TileId = TileId(value: U64)

  /** `(3 * rx) ^ ry`: the position of quadrant (rx, ry) along the curve:
      lower-left 0, upper-left 1, upper-right 2, lower-right 3. */
  function Quadrant(rx: Bit, ry: Bit): (q: nat)
    ensures q < 4
  {
    if rx == 0 then ry else 3 - ry
  }

  /** Quadrant is the source's `(3 * rx) ^ ry` on u32 values. */
  lemma QuadrantIsXor(rx: Bit, ry: Bit, q: nat)
    requires q == ((3 * rx) as bv32 ^ ry as bv32) as nat
    ensures q == Quadrant(rx, ry)
  {
  }

  /** `rotate(n, &mut x, &mut y, rx, ry)`; the two `&mut` results are returned
      as a pair. */
  function Rotate(n: nat, x: nat, y: nat, rx: Bit, ry: Bit): (r: (nat, nat))
    requires x < n && y < n
    ensures r.0 < n && r.1 < n
    ensures ry == 1 ==> r == (x, y)
    ensures ry == 0 && rx == 0 ==> r == (y, x)
    ensures ry == 0 && rx == 1 ==> r == (n - 1 - y, n - 1 - x)
  {
    if ry == 0 then
      var (x1, y1) := if rx == 1 then (n - 1 - x, n - 1 - y) else (x, y);
      (y1, x1)
    else
      (x, y)
  }

  /** Rotating twice with the same quadrant bits restores the point. */
  lemma RotateInvolution(n: nat, x: nat, y: nat, rx: Bit, ry: Bit)
    requires x < n && y < n
    ensures var r := Rotate(n, x, y, rx, ry); Rotate(n, r.0, r.1, rx, ry) == (x, y)
  {
  }

  /** One level of the curve seen from a point (x, y) of a 2^k by 2^k grid,
      k >= 1, with s = 2^(k-1): the quadrant's position along the curve and
      the point within the quadrant, turned so that the quadrant is traversed
      like the whole grid. */
  function Descend(s: nat, x: nat, y: nat): (r: (nat, nat, nat))
    requires x < 2 * s && y < 2 * s
    ensures r.0 < 4 && r.1 < s && r.2 < s
  {
    var rx: Bit := if x >= s then 1 else 0;
    var ry: Bit := if y >= s then 1 else 0;
    var p := Rotate(s, if rx == 1 then x - s else x, if ry == 1 then y - s else y, rx, ry);
    (Quadrant(rx, ry), p.0, p.1)
  }

  /** The inverse step, as `hilbert_to_xy` takes it: from the quadrant's
      position q and the point p within it, the point of the whole grid. */
  function Ascend(s: nat, q: nat, p: (nat, nat)): (r: (nat, nat))
    requires q < 4 && p.0 < s && p.1 < s
    ensures r.0 < 2 * s && r.1 < 2 * s
  {
    var rx: Bit := (q / 2) % 2;
    var ry: Bit := (q % 2 + rx) % 2;
    var t := Rotate(s, p.0, p.1, rx, ry);
    (if rx == 1 then t.0 + s else t.0, if ry == 1 then t.1 + s else t.1)
  }

  lemma AscendDescend(s: nat, x: nat, y: nat)
    requires x < 2 * s && y < 2 * s
    ensures var r := Descend(s, x, y); Ascend(s, r.0, (r.1, r.2)) == (x, y)
  {
    var rx: Bit := if x >= s then 1 else 0;
    var ry: Bit := if y >= s then 1 else 0;
    RotateInvolution(s, if rx == 1 then x - s else x, if ry == 1 then y - s else y, rx, ry);
  }

  lemma DescendAscend(s: nat, q: nat, p: (nat, nat))
    requires q < 4 && p.0 < s && p.1 < s
    ensures Descend(s, Ascend(s, q, p).0, Ascend(s, q, p).1) == (q, p.0, p.1)
  {
    var rx: Bit := (q / 2) % 2;
    var ry: Bit := (q % 2 + rx) % 2;
    RotateInvolution(s, p.0, p.1, rx, ry);
  }

  /** Hilbert distance of (x, y) on a 2^k by 2^k grid, quadrant by quadrant
      from the most significant: the reference for `xy_to_hilbert`. A quadrant
      of side s = 2^(k-1) holds s * s = 4^(k-1) cells. */
  function HilbertDistance(k: nat, x: nat, y: nat): (d: nat)
    requires x < Pow2(k) && y < Pow2(k)
    ensures d < Pow4(k)
    decreases k
  {
    if k == 0 then 0
    else
      var r := Descend(Pow2(k - 1), x, y);
      var q, x1, y1 := r.0, r.1, r.2;
      var inner := HilbertDistance(k - 1, x1, y1);
      DigitBound(Pow4(k - 1), q, inner);
      Pow4(k - 1) * q + inner
  }

  /** One level of the curve: the distance is the quadrant's block followed by
      the distance inside the quadrant, after the quadrant's rotation. */
  lemma HilbertLevel(k: nat, x: nat, y: nat, q: nat, x1: nat, y1: nat, inner: nat)
    requires 1 <= k && x < Pow2(k) && y < Pow2(k)
    requires Descend(Pow2(k - 1), x, y) == (q, x1, y1)
    requires HilbertDistance(k - 1, x1, y1) == inner
    ensures HilbertDistance(k, x, y) == Pow4(k - 1) * q + inner
  {
  }

  /** The point at distance d along the curve of a 2^k by 2^k grid: the
      reference for `hilbert_to_xy`. */
  function HilbertPoint(k: nat, d: nat): (p: (nat, nat))
    requires d < Pow4(k)
    ensures p.0 < Pow2(k) && p.1 < Pow2(k)
    decreases k
  {
    if k == 0 then (0, 0)
    else
      DigitSplit(d, Pow4(k - 1));
      Ascend(Pow2(k - 1), d / Pow4(k - 1), HilbertPoint(k - 1, d % Pow4(k - 1)))
  }

  /** One level of the curve, from the point's side: the point at distance
      4^(k-1) * q + low is the point at distance low, lifted into quadrant q. */
  lemma HilbertPointLevel(k: nat, q: nat, low: nat)
    requires 1 <= k && q < 4 && low < Pow4(k - 1)
    ensures Pow4(k - 1) * q + low < Pow4(k)
    ensures HilbertPoint(k, Pow4(k - 1) * q + low) == Ascend(Pow2(k - 1), q, HilbertPoint(k - 1, low))
  {
    var P := Pow4(k - 1);
    DigitBound(P, q, low);
    DivModUnique(P * q + low, P, q, low);
  }

  /** The point at the distance of (x, y) is (x, y). */
  lemma {:induction false} HilbertPointOfDistance(k: nat, x: nat, y: nat)
    requires x < Pow2(k) && y < Pow2(k)
    ensures HilbertPoint(k, HilbertDistance(k, x, y)) == (x, y)
    decreases k
  {
    if k > 0 {
      var s, P := Pow2(k - 1), Pow4(k - 1);
      var r := Descend(s, x, y);
      var q, x1, y1 := r.0, r.1, r.2;
      var inner := HilbertDistance(k - 1, x1, y1);
      var d := P * q + inner;
      assert HilbertDistance(k, x, y) == d;
      DivModUnique(d, P, q, inner);
      HilbertPointOfDistance(k - 1, x1, y1);
      AscendDescend(s, x, y);
      assert HilbertPoint(k, d) == Ascend(s, q, (x1, y1));
    }
  }

  /** The distance of the point at distance d is d. */
  lemma {:induction false} HilbertDistanceOfPoint(k: nat, d: nat)
    requires d < Pow4(k)
    ensures var p := HilbertPoint(k, d); HilbertDistance(k, p.0, p.1) == d
    decreases k
  {
    if k > 0 {
      var s, P := Pow2(k - 1), Pow4(k - 1);
      DigitSplit(d, P);
      var q, low := d / P, d % P;
      var inner := HilbertPoint(k - 1, low);
      var p := Ascend(s, q, inner);
      assert HilbertPoint(k, d) == p;
      assert Descend(s, p.0, p.1) == (q, inner.0, inner.1) by {
        DescendAscend(s, q, inner);
      }
      assert HilbertDistance(k - 1, inner.0, inner.1) == low by {
        HilbertDistanceOfPoint(k - 1, low);
      }
      assert HilbertDistance(k, p.0, p.1) == P * q + low;
    }
  }

  // ---------------------------------------------------------------------
  // Locality: consecutive cells along the curve are neighbours on the grid

  /** p and p' share a side: one coordinate equal, the other one apart. */
  predicate Adjacent(p: (nat, nat), p': (nat, nat))
  {
    || (p.0 == p'.0 && (p.1 + 1 == p'.1 || p'.1 + 1 == p.1))
    || (p.1 == p'.1 && (p.0 + 1 == p'.0 || p'.0 + 1 == p.0))
  }

  /** The quadrant's rotation and its placement in the grid keep neighbours
      neighbours. */
  lemma AscendAdjacent(s: nat, q: nat, c: (nat, nat), c': (nat, nat), p: (nat, nat), p': (nat, nat))
    requires q < 4 && c.0 < s && c.1 < s && c'.0 < s && c'.1 < s
    requires Adjacent(c, c') && p == Ascend(s, q, c) && p' == Ascend(s, q, c')
    ensures Adjacent(p, p')
  {
  }

  /** Where quadrant q ends, at its lower-right cell once turned, and
      quadrant q + 1 begins, at its lower-left cell, the two cells of the
      grid are neighbours. */
  lemma QuadrantsMeet(s: nat, q: nat, q': nat, c: (nat, nat), c': (nat, nat), p: (nat, nat), p': (nat, nat))
    requires 1 <= s && q < 3 && q' == q + 1 && c.0 + 1 == s && c.1 == 0 && c' == (0, 0)
    requires p == Ascend(s, q, c) && p' == Ascend(s, q', c')
    ensures Adjacent(p, p')
  {
  }

  /** The curve of a 2^k grid starts at the lower-left cell... */
  lemma {:induction false} DistanceOfStart(k: nat)
    ensures HilbertDistance(k, 0, 0) == 0
    decreases k
  {
    if k > 0 {
      DistanceOfStart(k - 1);
      HilbertLevel(k, 0, 0, 0, 0, 0, 0);
    }
  }

  /** ...and ends at the lower-right one. */
  lemma {:induction false} DistanceOfEnd(k: nat, x: nat)
    requires x + 1 == Pow2(k)
    ensures HilbertDistance(k, x, 0) + 1 == Pow4(k)
    decreases k
  {
    if k > 0 {
      var s, P := Pow2(k - 1), Pow4(k - 1);
      DistanceOfEnd(k - 1, s - 1);
      assert Descend(s, x, 0) == (3, s - 1, 0);
      HilbertLevel(k, x, 0, 3, s - 1, 0, P - 1);
    }
  }

  /** Distinct cells have distinct distances. */
  lemma DistanceInjective(k: nat, x: nat, y: nat, x': nat, y': nat)
    requires x < Pow2(k) && y < Pow2(k) && x' < Pow2(k) && y' < Pow2(k)
    requires HilbertDistance(k, x, y) == HilbertDistance(k, x', y')
    ensures x == x' && y == y'
  {
    HilbertPointOfDistance(k, x, y);
    HilbertPointOfDistance(k, x', y');
  }

  /** The only cell at the last distance is the lower-right one. */
  lemma EndCell(k: nat, x: nat, y: nat)
    requires x < Pow2(k) && y < Pow2(k) && HilbertDistance(k, x, y) + 1 == Pow4(k)
    ensures x + 1 == Pow2(k) && y == 0
  {
    DistanceOfEnd(k, Pow2(k) - 1);
    DistanceInjective(k, x, y, Pow2(k) - 1, 0);
  }

  /** The only cell at distance 0 is the lower-left one. */
  lemma StartCell(k: nat, x: nat, y: nat)
    requires x < Pow2(k) && y < Pow2(k) && HilbertDistance(k, x, y) == 0
    ensures x == 0 && y == 0
  {
    DistanceOfStart(k);
    DistanceInjective(k, x, y, 0, 0);
  }

  /** The cell's quadrant and its cell within the quadrant, turned: the
      distance splits into the quadrant's block and the distance within it,
      and lifting the inner cell back gives the cell. */
  lemma DistanceLevel(k: nat, x: nat, y: nat) returns (q: nat, c: (nat, nat), inner: nat)
    requires 1 <= k && x < Pow2(k) && y < Pow2(k)
    ensures q < 4 && c.0 < Pow2(k - 1) && c.1 < Pow2(k - 1)
    ensures inner == HilbertDistance(k - 1, c.0, c.1) && inner < Pow4(k - 1)
    ensures HilbertDistance(k, x, y) == Pow4(k - 1) * q + inner
    ensures Ascend(Pow2(k - 1), q, c) == (x, y)
  {
    var r := Descend(Pow2(k - 1), x, y);
    q, c := r.0, (r.1, r.2);
    inner := HilbertDistance(k - 1, c.0, c.1);
    AscendDescend(Pow2(k - 1), x, y);
  }

  /** Locality, from the cells' side: two cells whose distances along the
      curve are consecutive are neighbours on the grid. */
  lemma {:induction false} ConsecutiveAdjacent(k: nat, x: nat, y: nat, x': nat, y': nat)
    requires x < Pow2(k) && y < Pow2(k) && x' < Pow2(k) && y' < Pow2(k)
    requires HilbertDistance(k, x', y') == HilbertDistance(k, x, y) + 1
    ensures Adjacent((x, y), (x', y'))
    decreases k
  {
    assert k >= 1;
    var s, P := Pow2(k - 1), Pow4(k - 1);
    var q, c, inner := DistanceLevel(k, x, y);
    var q', c', inner' := DistanceLevel(k, x', y');
    if inner + 1 < P {
      SameQuadrant(P, q, inner, q', inner');
      ConsecutiveAdjacent(k - 1, c.0, c.1, c'.0, c'.1);
      AscendAdjacent(s, q, c, c', (x, y), (x', y'));
    } else {
      AcrossQuadrants(k, q, c, inner, q', c', inner', (x, y), (x', y'));
    }
  }

  /** The step of `ConsecutiveAdjacent` where the distance leaves quadrant
      q: the last cell of q and the first of the next are neighbours. */
  lemma AcrossQuadrants(k: nat, q: nat, c: (nat, nat), inner: nat, q': nat, c': (nat, nat), inner': nat,
                        p: (nat, nat), p': (nat, nat))
    requires 1 <= k && q < 4 && q' < 4
    requires c.0 < Pow2(k - 1) && c.1 < Pow2(k - 1) && c'.0 < Pow2(k - 1) && c'.1 < Pow2(k - 1)
    requires inner == HilbertDistance(k - 1, c.0, c.1) && inner' == HilbertDistance(k - 1, c'.0, c'.1)
    requires inner < Pow4(k - 1) <= inner + 1 && inner' < Pow4(k - 1)
    requires Pow4(k - 1) * q' + inner' == Pow4(k - 1) * q + inner + 1
    requires Ascend(Pow2(k - 1), q, c) == p && Ascend(Pow2(k - 1), q', c') == p'
    ensures Adjacent(p, p')
  {
    NextQuadrant(Pow4(k - 1), q, inner, q', inner');
    EndCell(k - 1, c.0, c.1);
    StartCell(k - 1, c'.0, c'.1);
    QuadrantsMeet(Pow2(k - 1), q, q', c, c', p, p');
  }

  /** Consecutive distances inside one block of P: the same block, the next
      offset. */
  lemma SameQuadrant(P: nat, q: nat, inner: nat, q': nat, inner': nat)
    requires inner + 1 < P && inner' < P && P * q' + inner' == P * q + inner + 1
    ensures q' == q && inner' == inner + 1
  {
    DivModUnique(P * q + inner + 1, P, q, inner + 1);
    DivModUnique(P * q' + inner', P, q', inner');
  }

  /** Consecutive distances across blocks of P: the last offset of one block,
      the first of the next. */
  lemma NextQuadrant(P: nat, q: nat, inner: nat, q': nat, inner': nat)
    requires inner < P && inner' < P && inner + 1 >= P && P * q' + inner' == P * q + inner + 1
    ensures inner == P - 1 && q' == q + 1 && inner' == 0
  {
    MulSucc(P, q);
    DivModUnique(P * (q + 1) + 0, P, q + 1, 0);
    DivModUnique(P * q' + inner', P, q', inner');
  }

  /** Locality of the Hilbert curve, the reason the tile ids follow it: the
      cells at distances d and d + 1 are neighbours on the grid. */
  lemma HilbertAdjacent(k: nat, d: nat)
    requires d + 1 < Pow4(k)
    ensures Adjacent(HilbertPoint(k, d), HilbertPoint(k, d + 1))
  {
    var p, p' := HilbertPoint(k, d), HilbertPoint(k, d + 1);
    HilbertDistanceOfPoint(k, d);
    HilbertDistanceOfPoint(k, d + 1);
    ConsecutiveAdjacent(k, p.0, p.1, p'.0, p'.1);
  }

  /** `(4^z - 1) / 3`: the number of tiles on all zoom levels below z. */
  function PyramidBase(z: nat): nat
  {
    (Pow4(z) - 1) / 3
  }

  lemma {:induction false} Pow4Mod3(z: nat)
    ensures Pow4(z) % 3 == 1
    decreases z
  {
    if z > 0 {
      Pow4Mod3(z - 1);
      var m := Pow4(z - 1) / 3;
      assert Pow4(z - 1) == 3 * m + 1;
      DivModUnique(Pow4(z), 3, 4 * m + 1, 1);
    }
  }

  /** Zoom level z occupies the 4^z ids from PyramidBase(z) on. */
  lemma PyramidBaseStep(z: nat)
    ensures PyramidBase(z + 1) == PyramidBase(z) + Pow4(z)
  {
    Pow4Mod3(z);
    var m := Pow4(z) / 3;
    assert Pow4(z) == 3 * m + 1;
    DivModUnique(Pow4(z) - 1, 3, m, 0);
    DivModUnique(Pow4(z + 1) - 1, 3, 4 * m + 1, 0);
  }

  lemma {:induction false} PyramidBaseMonotone(a: nat, b: nat)
    ensures a <= b ==> PyramidBase(a) <= PyramidBase(b)
    ensures a < b ==> PyramidBase(a + 1) <= PyramidBase(b)
    decreases b
  {
    if a < b {
      PyramidBaseMonotone(a, b - 1);
      PyramidBaseStep(b - 1);
    }
  }

  /** Ids of zoom 31 and below fit in a u64. */
  lemma PyramidBaseFits()
    ensures PyramidBase(MAX_ZOOM + 1) < TWO_64
  {
    Pow4IsSquare(32);
    Pow2Of32();
  }

  /** A tile id lies in exactly one zoom level's band. */
  lemma ZoomUnique(v: nat, a: nat, b: nat)
    requires PyramidBase(a) <= v < PyramidBase(a + 1)
    requires PyramidBase(b) <= v < PyramidBase(b + 1)
    ensures a == b
  {
    PyramidBaseMonotone(a, b);
    PyramidBaseMonotone(b, a);
  }

  /** The zoom level of the id v, searched upwards from zoom z. */
  function ZoomFrom(v: nat, z: nat): (r: nat)
    requires PyramidBase(z) <= v
    ensures z <= r && PyramidBase(r) <= v < PyramidBase(r + 1)
    decreases v - PyramidBase(z)
  {
    PyramidBaseStep(z);
    if v < PyramidBase(z + 1) then z else ZoomFrom(v, z + 1)
  }

  /** The id of tile (z, x, y): the tiles of all lower zooms, then the Hilbert distance. */
  function TileIdOf(z: nat, x: nat, y: nat): (v: nat)
    requires x < Pow2(z) && y < Pow2(z)
    ensures PyramidBase(z) <= v < PyramidBase(z + 1)
  {
    PyramidBaseStep(z);
    PyramidBase(z) + HilbertDistance(z, x, y)
  }

  /** The (z, x, y) of a tile id: its zoom band, then the point at the remaining distance. */
  function TileCoordinates(v: nat): (c: (nat, nat, nat))
    ensures PyramidBase(c.0) <= v < PyramidBase(c.0 + 1)
    ensures c.1 < Pow2(c.0) && c.2 < Pow2(c.0)
  {
    var z := ZoomFrom(v, 0);
    PyramidBaseStep(z);
    var p := HilbertPoint(z, v - PyramidBase(z));
    (z, p.0, p.1)
  }

  /** An id in zoom z's band has zoom z and lies at distance v - PyramidBase(z)
      along that zoom's curve. */
  lemma TileCoordinatesAt(v: nat, z: nat)
    requires PyramidBase(z) <= v < PyramidBase(z + 1)
    ensures TileCoordinates(v) == (z, HilbertPoint(z, v - PyramidBase(z)).0, HilbertPoint(z, v - PyramidBase(z)).1)
  {
    ZoomUnique(v, z, ZoomFrom(v, 0));
    PyramidBaseStep(z);
  }

  /** `decode(encode(z, x, y)) == (z, x, y)`. */
  lemma TileIdRoundTrip(z: nat, x: nat, y: nat)
    requires x < Pow2(z) && y < Pow2(z)
    ensures TileCoordinates(TileIdOf(z, x, y)) == (z, x, y)
  {
    var v := TileIdOf(z, x, y);
    TileCoordinatesAt(v, z);
    assert v - PyramidBase(z) == HilbertDistance(z, x, y);
    HilbertPointOfDistance(z, x, y);
  }

  /** `encode(decode(v)) == v`: together with TileIdRoundTrip, ids and tiles
      correspond one to one. */
  lemma TileCoordinatesRoundTrip(v: nat)
    ensures var c := TileCoordinates(v); TileIdOf(c.0, c.1, c.2) == v
  {
    var c := TileCoordinates(v);
    PyramidBaseStep(c.0);
    HilbertDistanceOfPoint(c.0, v - PyramidBase(c.0));
  }

  /** Reflecting y within a grid of side n, a multiple of s, reflects y's
      position within its block of side s. */
  lemma ReflectMod(n: nat, s: nat, y: nat)
    requires s > 0 && n % s == 0 && y < n
    ensures (n - 1 - y) % s == s - 1 - y % s
  {
    var m := n / s;
    var q, r := y / s, y % s;
    assert n == m * s;
    assert y == q * s + r;
    MulMonotone(m, q, s);
    assert q < m;
    assert n - 1 - y == (m - q - 1) * s + (s - 1 - r);
    DivModUnique(n - 1 - y, s, m - q - 1, s - 1 - r);
  }

  /** Rotating within the whole n by n grid and then keeping the position
      within the block of side s is rotating that position within the block. */
  lemma RotateLowBits(n: nat, s: nat, x: nat, y: nat, rx: Bit, ry: Bit)
    requires s > 0 && n % s == 0 && x < n && y < n
    ensures var r := Rotate(n, x, y, rx, ry);
            (r.0 % s, r.1 % s) == Rotate(s, x % s, y % s, rx, ry)
  {
    var r := Rotate(n, x, y, rx, ry);
    if ry == 1 {
      assert r == (x, y);
    } else if rx == 0 {
      assert r == (y, x);
    } else {
      assert r == (n - 1 - y, n - 1 - x);
      assert (r.0 % s, r.1 % s) == (s - 1 - y % s, s - 1 - x % s) by {
        ReflectMod(n, s, y);
        ReflectMod(n, s, x);
      }
    }
  }

  /** Bit log2(s) of x, `(x & s) > 0`, tells in which half of its block of
      side 2s the point lies; taking the upper half off leaves x mod s. */
  lemma HalfOfBlock(x: nat, s: nat)
    requires s > 0
    ensures var X := x % (s * 2);
            && (X >= s <==> (x / s) % 2 == 1)
            && (if X >= s then X - s else X) == x % s
  {
    var X := x % (s * 2);
    DivOfMod(x, s, 2);
    if X >= s {
      DivModUnique(X, s, 1, X - s);
    } else {
      DivModUnique(X, s, 0, X);
    }
  }

  /** One turn of the `xy_to_hilbert` loop, at s = 2^(k-1): the quadrant of
      the low k bits of (x, y) contributes s * s times its position, and the
      rest is the distance of the rotated point's low k - 1 bits. */
  lemma HilbertStep(z: nat, k: nat, x: nat, y: nat)
    requires 1 <= k <= z && x < Pow2(z) && y < Pow2(z)
    ensures var s := Pow2(k - 1);
            var rx: Bit := (x / s) % 2;
            var ry: Bit := (y / s) % 2;
            var r := Rotate(Pow2(z), x, y, rx, ry);
            HilbertDistance(k, x % Pow2(k), y % Pow2(k))
            == s * s * Quadrant(rx, ry) + HilbertDistance(k - 1, r.0 % s, r.1 % s)
  {
    var s := Pow2(k - 1);
    var n := Pow2(z);
    assert Pow2(k) == s * 2;
    assert n % s == 0 by {
      Pow2Add(k - 1, z - k + 1);
      DivModUnique(n, s, Pow2(z - k + 1), 0);
    }
    var rx: Bit := (x / s) % 2;
    var ry: Bit := (y / s) % 2;
    var X, Y := x % (s * 2), y % (s * 2);
    var r := Rotate(n, x, y, rx, ry);
    var x1, y1 := r.0 % s, r.1 % s;
    assert Descend(s, X, Y) == (Quadrant(rx, ry), x1, y1) by {
      HalfOfBlock(x, s);
      HalfOfBlock(y, s);
      RotateLowBits(n, s, x, y, rx, ry);
    }
    assert Pow4(k - 1) == s * s by {
      Pow4IsSquare(k - 1);
    }
    HilbertLevel(k, X, Y, Quadrant(rx, ry), x1, y1, HilbertDistance(k - 1, x1, y1));
  }

  /** The state of the `xy_to_hilbert` loop with k levels left: s = 2^(k-1)
      (0 once none is left), (x, y) stays in the n by n grid, and d plus the
      distance of the low k bits of (x, y) is the distance of (x0, y0). */
  ghost predicate FromXyInvariant(z: nat, x0: nat, y0: nat, k: nat, s: nat, n: nat, d: nat, x: nat, y: nat)
    requires x0 < Pow2(z) && y0 < Pow2(z)
  {
    && k <= z && n == Pow2(z)
    && s == (if k == 0 then 0 else Pow2(k - 1))
    && x < n && y < n
    && d + HilbertDistance(k, x % Pow2(k), y % Pow2(k)) == HilbertDistance(z, x0, y0)
  }

  /** The distance part of one turn of the `xy_to_hilbert` loop. */
  lemma FromXyStep(z: nat, k: nat, x: nat, y: nat, rx: Bit, ry: Bit, q: nat)
    requires 1 <= k <= z && x < Pow2(z) && y < Pow2(z)
    requires rx == (x / Pow2(k - 1)) % 2 && ry == (y / Pow2(k - 1)) % 2
    requires q == Quadrant(rx, ry)
    ensures var s := Pow2(k - 1);
            var r := Rotate(Pow2(z), x, y, rx, ry);
            && 0 <= s * s * q
            && HilbertDistance(k, x % Pow2(k), y % Pow2(k))
               == s * s * q + HilbertDistance(k - 1, r.0 % s, r.1 % s)
  {
    var s := Pow2(k - 1);
    var r := Rotate(Pow2(z), x, y, rx, ry);
    assert HilbertDistance(k, x % Pow2(k), y % Pow2(k))
           == s * s * q + HilbertDistance(k - 1, r.0 % s, r.1 % s) by {
      HilbertStep(z, k, x, y);
    }
    MulNat(s, s, q);
  }

  /** One turn of the `xy_to_hilbert` loop keeps its invariant, and d stays
      within the source's u64. */
  lemma FromXyTurn(z: nat, x0: nat, y0: nat, k: nat, s: nat, n: nat, d: nat, x: nat, y: nat,
                   q: nat, d': int, x': nat, y': nat)
    requires z <= MAX_ZOOM && x0 < Pow2(z) && y0 < Pow2(z)
    requires FromXyInvariant(z, x0, y0, k, s, n, d, x, y) && s > 0
    requires var rx: Bit := (x / s) % 2;
             var ry: Bit := (y / s) % 2;
             var r := Rotate(n, x, y, rx, ry);
             && q == Quadrant(rx, ry)
             && d' == d + s * s * q && (x', y') == r
    ensures 0 <= d' < TWO_64
    ensures FromXyInvariant(z, x0, y0, k - 1, s / 2, n, d', x', y')
  {
    FromXyStep(z, k, x, y, (x / s) % 2, (y / s) % 2, q);
    assert HilbertDistance(z, x0, y0) < TWO_64 by {
      Pow4Below64(z);
    }
    HalvePow2(k - 1);
  }

  /** `xy_to_hilbert`: the while loop over s = n/2, n/4, ..., 1, accumulating
      `d` and rotating (x, y) within the whole grid. `(x & s) > 0` for a power
      of two s is written `(x / s) % 2 == 1`. */
  method XyToHilbert(z: nat, x0: U32, y0: U32) returns (d: U64)
    requires z <= MAX_ZOOM && x0 < Pow2(z) && y0 < Pow2(z)
    ensures d == HilbertDistance(z, x0, y0)
  {
    if z == 0 {
      return 0;
    }
    Pow2Below32(z);
    assert x0 % Pow2(z) == x0 && y0 % Pow2(z) == y0 by {
      DivModUnique(x0, Pow2(z), 0, x0);
      DivModUnique(y0, Pow2(z), 0, y0);
    }
    d := 0;
    var n: U32 := Pow2(z);
    var s: U32 := n / 2;
    var x: U32, y: U32 := x0, y0;
    ghost var k: nat := z;
    while s > 0
      invariant FromXyInvariant(z, x0, y0, k, s, n, d, x, y)
      decreases k
    {
      var rx: Bit := (x / s) % 2;
      var ry: Bit := (y / s) % 2;
      var q := ((3 * rx) as bv32 ^ ry as bv32) as nat;
      QuadrantIsXor(rx, ry, q);
      var r := Rotate(n, x, y, rx, ry);
      var d1 := d + s * s * q;
      FromXyTurn(z, x0, y0, k, s, n, d, x, y, q, d1, r.0, r.1);
      d, x, y := d1, r.0, r.1;
      s := s / 2;
      k := k - 1;
    }
    assert Pow2(0) == 1;
  }

  /** The two bits of d's lowest base-4 digit, as `hilbert_to_xy` reads them. */
  lemma LowDigitBits(d: nat)
    ensures ((d % 4) / 2) % 2 == (d / 2) % 2
    ensures (d % 4) % 2 == d % 2
  {
    DivOfMod(d, 2, 2);
  }

  lemma MulBit(s: nat, b: Bit)
    ensures s * b == if b == 1 then s else 0
  {
  }

  /** One turn of the `hilbert_to_xy` loop on the remaining digits d of d0:
      the low j + 1 digits of d0 are digit j, d % 4, above the low j digits,
      so their point lifts the point of the low j digits into quadrant d % 4. */
  lemma HilbertToXyTurn(j: nat, d0: nat, d: nat)
    requires d == d0 / Pow4(j)
    ensures d0 % Pow4(j + 1) == Pow4(j) * (d % 4) + d0 % Pow4(j)
    ensures HilbertPoint(j + 1, d0 % Pow4(j + 1))
            == Ascend(Pow2(j), d % 4, HilbertPoint(j, d0 % Pow4(j)))
    ensures d / 4 == d0 / Pow4(j + 1)
  {
    var P := Pow4(j);
    var q, low := d % 4, d0 % P;
    assert Pow4(j + 1) == P * 4;
    assert d0 % Pow4(j + 1) == P * q + low by {
      ModSplit(d0, P, 4);
    }
    HilbertPointLevel(j + 1, q, low);
    DivDiv(d0, P, 4);
  }

  /** The source's offsets `s * rx` and `s * ry`, with rx and ry read off d,
      place the rotated point in quadrant d % 4 as Ascend does. */
  lemma AscendBits(s: nat, d: nat, x: nat, y: nat, x': int, y': int)
    requires x < s && y < s
    requires var rx: Bit := (d / 2) % 2;
             var ry: Bit := (d % 2 + rx) % 2;
             var r := Rotate(s, x, y, rx, ry);
             x' == r.0 + s * rx && y' == r.1 + s * ry
    ensures (x', y') == Ascend(s, d % 4, (x, y))
  {
    var rx: Bit := (d / 2) % 2;
    var ry: Bit := (d % 2 + rx) % 2;
    LowDigitBits(d);
    MulBit(s, rx);
    MulBit(s, ry);
  }

  /** The state of the `hilbert_to_xy` loop after j turns: s = 2^j, d holds
      the base-4 digits of d0 from digit j on, and (x, y) is the point at the
      distance given by the lower j digits. */
  ghost predicate ToXyInvariant(z: nat, d0: nat, j: nat, s: nat, d: nat, x: nat, y: nat)
  {
    && j <= z && s == Pow2(j)
    && d == d0 / Pow4(j)
    && (x, y) == HilbertPoint(j, d0 % Pow4(j))
  }

  /** One turn of the `hilbert_to_xy` loop keeps its invariant, and the new
      values fit the source's u32 variables. */
  lemma ToXyTurn(z: nat, d0: nat, j: nat, s: nat, d: nat, x: nat, y: nat, x': int, y': int)
    requires z <= MAX_ZOOM && ToXyInvariant(z, d0, j, s, d, x, y) && s < Pow2(z)
    requires var rx: Bit := (d / 2) % 2;
             var ry: Bit := (d % 2 + rx) % 2;
             var r := Rotate(s, x, y, rx, ry);
             x' == r.0 + s * rx && y' == r.1 + s * ry
    ensures 0 <= x' < TWO_32 && 0 <= y' < TWO_32 && s * 2 < TWO_32
    ensures ToXyInvariant(z, d0, j + 1, s * 2, d / 4, x', y')
  {
    assert Pow2(j + 1) < TWO_32 by {
      assert j < z by {
        Pow2StrictlyMonotone(z, j);
      }
      Pow2Below32(j + 1);
    }
    var p := HilbertPoint(j + 1, d0 % Pow4(j + 1));
    assert (x', y') == p by {
      HilbertToXyTurn(j, d0, d);
      AscendBits(s, d, x, y, x', y');
    }
    assert d / 4 == d0 / Pow4(j + 1) by {
      HilbertToXyTurn(j, d0, d);
    }
  }

  /** When the `hilbert_to_xy` loop stops, all z digits have been placed. */
  lemma ToXyDone(z: nat, d0: nat, j: nat, s: nat, d: nat, x: nat, y: nat)
    requires ToXyInvariant(z, d0, j, s, d, x, y) && s >= Pow2(z) && d0 < Pow4(z)
    ensures (x, y) == HilbertPoint(z, d0)
  {
    assert j == z by {
      Pow2StrictlyMonotone(j, z);
    }
    DivModUnique(d0, Pow4(z), 0, d0);
  }

  /** Before the `hilbert_to_xy` loop no digit is placed and (x, y) is (0, 0). */
  lemma ToXyStart(z: nat, d0: nat)
    ensures ToXyInvariant(z, d0, 0, 1, d0, 0, 0)
  {
    assert Pow2(0) == 1 && Pow4(0) == 1;
    assert d0 / 1 == d0 && d0 % 1 == 0;
  }

  /** The body of the `hilbert_to_xy` loop: the quadrant bits rx and ry of
      d's lowest digit, the rotation, and the offsets `s * rx` and `s * ry`. */
  method ToXyStep(ghost z: nat, ghost d0: nat, ghost j: nat, s: U32, d: nat, x: U32, y: U32)
    returns (x': U32, y': U32)
    requires z <= MAX_ZOOM && ToXyInvariant(z, d0, j, s, d, x, y) && s < Pow2(z)
    ensures s * 2 < TWO_32 && ToXyInvariant(z, d0, j + 1, s * 2, d / 4, x', y')
  {
    var rx: Bit := (d / 2) % 2;
    var ry: Bit := (d % 2 + rx) % 2;
    var r := Rotate(s, x, y, rx, ry);
    var x1, y1 := r.0 + s * rx, r.1 + s * ry;
    ToXyTurn(z, d0, j, s, d, x, y, x1, y1);
    x', y' := x1, y1;
  }

  /** `hilbert_to_xy`: the while loop over s = 1, 2, ..., n/2, consuming two
      bits of `d` per turn, least significant first. `1 & (d as u32 ^ rx)`,
      the low bit of d xor rx, is written `(d % 2 + rx) % 2`. */
  method HilbertToXy(z: nat, d0: U64) returns (x: U32, y: U32)
    requires z <= MAX_ZOOM && d0 < Pow4(z)
    ensures (x, y) == HilbertPoint(z, d0)
  {
    Pow2Below32(z);
    x, y := 0, 0;
    var s: U32 := 1;
    var n: U32 := Pow2(z);
    var d: nat := d0;
    ghost var j: nat := 0;
    ToXyStart(z, d0);
    while s < n
      invariant ToXyInvariant(z, d0, j, s, d, x, y)
      decreases n - s
    {
      x, y := ToXyStep(z, d0, j, s, d, x, y);
      d := d / 4;
      s := s * 2;
      j := j + 1;
    }
    ToXyDone(z, d0, j, s, d, x, y);
  }

  /** The id of a tile of zoom 31 or below fits in a u64. */
  lemma TileIdFits(z: nat, x: nat, y: nat)
    requires z <= MAX_ZOOM && x < Pow2(z) && y < Pow2(z)
    ensures TileIdOf(z, x, y) == PyramidBase(z) + HilbertDistance(z, x, y) < TWO_64
  {
    PyramidBaseFits();
    PyramidBaseMonotone(z + 1, MAX_ZOOM + 1);
  }

  /** `TileId::encode`. */
  method Encode(z: nat, x: U32, y: U32) returns (t: TileId)
    requires z <= MAX_ZOOM && x < Pow2(z) && y < Pow2(z)
    ensures t.value == TileIdOf(z, x, y)
  {
    TileIdFits(z, x, y);
    var id: nat := (Pow4(z) - 1) / 3;
    var h := XyToHilbert(z, x, y);
    id := id + h;
    t := TileId(id);
  }

  /** One turn of the `decode` loop: the id lies above zoom z, so the rest
      after zoom z's 4^z ids lies in a zoom that is still at most 31. */
  lemma DecodeTurn(v: nat, z: nat, id: nat)
    requires PyramidBase(z) + id == v < PyramidBase(MAX_ZOOM + 1) && id >= Pow4(z)
    ensures PyramidBase(z + 1) + (id - Pow4(z)) == v && z + 1 <= MAX_ZOOM
  {
    PyramidBaseStep(z);
    PyramidBaseMonotone(MAX_ZOOM + 1, z + 1);
  }

  /** The end of the `decode` loop: the rest lies within zoom z, which is
      therefore the id's zoom level, and the rest is its Hilbert distance. */
  lemma DecodeDone(v: nat, z: nat, id: nat)
    requires PyramidBase(z) + id == v && id < Pow4(z) && z <= MAX_ZOOM
    ensures id < TWO_64
    ensures TileCoordinates(v) == (z, HilbertPoint(z, id).0, HilbertPoint(z, id).1)
  {
    assert Pow4(z) < TWO_64 by {
      Pow4Below64(z);
    }
    PyramidBaseStep(z);
    TileCoordinatesAt(v, z);
  }

  /** `TileId::decode`: the loop subtracting 4^z until the rest lies within zoom z.
      Ids of zoom 32 and above make `4u64.pow(32)` overflow, so they are excluded. */
  method Decode(t: TileId) returns (z: nat, x: U32, y: U32)
    requires t.value < PyramidBase(MAX_ZOOM + 1)
    ensures (z, x as nat, y as nat) == TileCoordinates(t.value)
  {
    var id: nat := t.value;
    z := 0;
    while true
      invariant PyramidBase(z) + id == t.value
      invariant z <= MAX_ZOOM
      decreases id
    {
      var nextZOffset := Pow4(z);
      if id < nextZOffset {
        break;
      }
      DecodeTurn(t.value, z, id);
      id := id - nextZOffset;
      z := z + 1;
    }
    DecodeDone(t.value, z, id);
    x, y := HilbertToXy(z, id);
  }

  // The vectors of the source's unit tests, each in both directions.

  /** Tile id 0 is the single tile of zoom 0, (0, 0, 0). */
  lemma TestVectorTile0()
    ensures TileIdOf(0, 0, 0) == 0 && TileCoordinates(0) == (0, 0, 0)
  {
    TileIdRoundTrip(0, 0, 0);
  }

  /** Tile id 1 is the first tile of zoom 1, (1, 0, 0). */
  lemma TestVectorTile1()
    ensures TileIdOf(1, 0, 0) == 1 && TileCoordinates(1) == (1, 0, 0)
  {
    TileIdRoundTrip(1, 0, 0);
  }

  /** Tile id 2 is the second tile of zoom 1, (1, 0, 1). */
  lemma TestVectorTile2()
    ensures TileIdOf(1, 0, 1) == 2 && TileCoordinates(2) == (1, 0, 1)
  {
    TileIdRoundTrip(1, 0, 1);
  }

  /** Tile id 3 is the third tile of zoom 1, (1, 1, 1). */
  lemma TestVectorTile3()
    ensures TileIdOf(1, 1, 1) == 3 && TileCoordinates(3) == (1, 1, 1)
  {
    TileIdRoundTrip(1, 1, 1);
  }

  /** Tile id 4 is the last tile of zoom 1, (1, 1, 0). */
  lemma TestVectorTile4()
    ensures TileIdOf(1, 1, 0) == 4 && TileCoordinates(4) == (1, 1, 0)
  {
    TileIdRoundTrip(1, 1, 0);
  }

  /** Tile id 5 is the first tile of zoom 2, (2, 0, 0). */
  lemma TestVectorTile5()
    ensures TileIdOf(2, 0, 0) == 5 && TileCoordinates(5) == (2, 0, 0)
  {
    DistanceOfStart(2);
    assert PyramidBase(2) == 5;
    TileIdRoundTrip(2, 0, 0);
  }

  /** The zoom-12 vector of the source's unit tests, (12, 3423, 1763), level by
      level from the smallest quadrant up, and back. */
  lemma TestVectorZoom12()
    ensures TileIdOf(12, 3423, 1763) == 19078479
    ensures TileCoordinates(19078479) == (12, 3423, 1763)
  {
    HilbertLevel(1, 1, 1, 2, 0, 0, 0);
    HilbertLevel(2, 3, 3, 2, 1, 1, 2);
    HilbertLevel(3, 4, 0, 3, 3, 3, 10);
    HilbertLevel(4, 15, 3, 3, 4, 0, 58);
    HilbertLevel(5, 28, 0, 3, 15, 3, 250);
    HilbertLevel(6, 28, 32, 1, 28, 0, 1018);
    HilbertLevel(7, 32, 28, 0, 28, 32, 2042);
    HilbertLevel(8, 227, 95, 3, 32, 28, 2042);
    HilbertLevel(9, 227, 351, 1, 227, 95, 51194);
    HilbertLevel(10, 672, 284, 3, 227, 351, 116730);
    HilbertLevel(11, 284, 672, 0, 672, 284, 903162);
    HilbertLevel(12, 3423, 1763, 3, 284, 672, 903162);
    assert PyramidBase(12) == 5592405;
    assert Pow2(12) == 4096;
    TileIdRoundTrip(12, 3423, 1763);
  }
}
