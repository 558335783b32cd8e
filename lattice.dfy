/** The coordinate lattice of a regular OMF grid, rebuilt from the header
    alone as `OOMMFDataRead.set_coordinates` does: one evenly spaced axis per
    direction, expanded with numpy's `tile` and `repeat` so that x varies
    fastest and z slowest, then scaled from metres to nanometres. Numbers
    are exact reals here. */
module Lattice {
  import opened OmfHeader

  /** The length-unit conversion applied to every coordinate: metres to
      nanometres, a factor of 1e9. */
  function Nano(v: real): real
  {
    1000000000.0 * v
  }

  type Point = (real, real, real)

  /** `np.arange(float(n)) * step + base` for a non-negative count. */
  function Axis(n: nat, step: real, base: real): (r: seq<real>)
    ensures |r| == n
  {
    seq(n, k requires 0 <= k < n => k as real * step + base)
  }

  /** `np.tile(s, k)`: `s` repeated `k` times end to end. */
  function Tile(s: seq<real>, k: nat): seq<real>
  {
    if k == 0 then [] else Tile(s, k - 1) + s
  }

  /** `np.repeat(s, k)`: each element of `s` repeated `k` times in place. */
  function Repeat(s: seq<real>, k: nat): seq<real>
  {
    if s == [] then [] else Repeat(s[..|s| - 1], k) + seq(k, _ => s[|s| - 1])
  }

  // ---------------------------------------------------------------------------
  // Index arithmetic

  lemma MulDistSub(a: int, x: int, y: int)
    ensures a * (x - y) == a * x - a * y
  {
  }

  lemma MulDistAdd(a: int, x: int, y: int)
    ensures a * (x + y) == a * x + a * y
  {
  }

  lemma MulAssoc(a: int, b: int, c: int)
    ensures (a * b) * c == a * (b * c)
  {
  }

  lemma MulNonneg(a: int, d: int)
    requires a >= 0 && d >= 0
    ensures a * d >= 0
  {
  }

  lemma MulGe(a: int, d: int)
    requires a > 0 && d >= 1
    ensures a * d >= a
  {
    MulDistSub(a, d, 1);
    MulNonneg(a, d - 1);
  }

  /** Quotient and remainder are determined by the division identity. */
  lemma DivModUnique(i: int, a: int, q: int, r: int)
    requires a > 0 && 0 <= r < a && i == a * q + r
    ensures i / a == q && i % a == r
  {
    var q', r' := i / a, i % a;
    assert i == a * q' + r';
    MulDistSub(a, q, q');
    if q > q' {
      MulGe(a, q - q');
      assert false;
    } else if q < q' {
      MulDistSub(a, q', q);
      MulGe(a, q' - q);
      assert false;
    }
  }

  /** An offset below `a` inside block `x` of size `a` lies before block
      `y` when `x < y`. */
  lemma BlockBound(a: int, x: int, y: int, r: int)
    requires 0 <= r < a && 0 <= x < y
    ensures r + a * x < a * y
  {
    MulDistSub(a, y, x);
    MulGe(a, y - x);
  }

  /** A position in a block of `a * b` splits into a position in a block of
      `a` and a block number below `b`. */
  lemma ModOfProduct(i: int, a: int, b: int)
    requires i >= 0 && a > 0 && b > 0
    ensures (i % (a * b)) % a == i % a
    ensures (i % (a * b)) / a == (i / a) % b
  {
    MulGe(a, b);
    var q, r := i / (a * b), i % (a * b);
    var s, t := r / a, r % a;
    assert r == a * s + t;
    if s >= b {
      MulDistSub(a, s, b);
      MulNonneg(a, s - b);
      assert false;
    }
    MulAssoc(a, b, q);
    MulDistAdd(a, b * q, s);
    assert i == a * (b * q + s) + t;
    DivModUnique(i, a, b * q + s, t);
    DivModUnique(i / a, b, q, s);
  }

  // ---------------------------------------------------------------------------
  // tile and repeat

  lemma {:induction false} TileLength(s: seq<real>, k: nat)
    ensures |Tile(s, k)| == |s| * k
  {
    if k > 0 {
      TileLength(s, k - 1);
      MulDistSub(|s|, k, 1);
    }
  }

  /** Entry `i` of a tiling is entry `i mod |s|` of the tiled sequence. */
  lemma {:induction false} TileAt(s: seq<real>, k: nat, i: nat)
    requires i < |s| * k
    ensures |Tile(s, k)| == |s| * k
    ensures Tile(s, k)[i] == s[i % |s|]
  {
    TileLength(s, k);
    TileLength(s, k - 1);
    MulDistSub(|s|, k, 1);
    if i < |s| * (k - 1) {
      TileAt(s, k - 1, i);
    } else {
      DivModUnique(i, |s|, k - 1, i - |s| * (k - 1));
    }
  }

  lemma {:induction false} RepeatLength(s: seq<real>, k: nat)
    ensures |Repeat(s, k)| == |s| * k
  {
    if s != [] {
      RepeatLength(s[..|s| - 1], k);
      MulDistSub(k, |s|, 1);
    }
  }

  /** An index below `k * n` lies in one of the first `n` blocks of `k`. */
  lemma DivBelow(i: int, k: int, n: int)
    requires k > 0 && 0 <= i < k * n
    ensures 0 <= i / k < n
  {
    if i / k >= n {
      MulDistSub(k, i / k, n);
      MulNonneg(k, i / k - n);
      assert false;
    }
  }

  /** Entry `i` of a repetition is entry `i div k` of the repeated sequence. */
  lemma {:induction false} RepeatAt(s: seq<real>, k: nat, i: nat)
    requires i < |s| * k
    ensures |Repeat(s, k)| == |s| * k
    ensures Repeat(s, k)[i] == s[i / k]
  {
    RepeatLength(s, k);
    var n := |s| - 1;
    var prefix := Repeat(s[..n], k);
    assert Repeat(s, k) == prefix + seq(k, _ => s[n]);
    assert |prefix| == n * k by { RepeatLength(s[..n], k); }
    assert k > 0 && |s| * k == n * k + k by { MulDistSub(k, |s|, 1); }
    if i < n * k {
      assert Repeat(s, k)[i] == prefix[i];
      RepeatAt(s[..n], k, i);
      DivBelow(i, k, n);
    } else {
      DivModUnique(i, k, n, i - n * k);
      assert Repeat(s, k)[i] == s[n];
    }
  }

  // ---------------------------------------------------------------------------
  // The lattice

  /** The number of lattice sites. */
  function Sites(h: GridHeader): int
  {
    h.nx * h.ny * h.nz
  }

  /** A site index below nx*ny*nz needs every count positive. */
  lemma PositiveFactors(a: int, b: int, c: int, i: int)
    requires a >= 0 && b >= 0 && c >= 0 && 0 <= i < a * b * c
    ensures a > 0 && b > 0 && c > 0 && a * b > 0
  {
    MulGe(a, b);
  }

  /** The grid indices of site `i`: x index `i mod nx`, y index
      `(i div nx) mod ny`, z index `i div (nx*ny)`. */
  function SiteIndex(h: GridHeader, i: nat): (int, int, int)
    requires h.nx >= 0 && h.ny >= 0 && h.nz >= 0 && i < Sites(h)
  {
    PositiveFactors(h.nx, h.ny, h.nz, i);
    (i % h.nx, (i / h.nx) % h.ny, i / (h.nx * h.ny))
  }

  /** The position, in nanometres, of the grid point with indices `c`. */
  function Position(h: GridHeader, c: (int, int, int)): Point
  {
    (Nano(h.xbase + c.0 as real * h.dx),
     Nano(h.ybase + c.1 as real * h.dy),
     Nano(h.zbase + c.2 as real * h.dz))
  }

  /** Site `i` of the lattice. */
  function LatticePoint(h: GridHeader, i: nat): Point
    requires h.nx >= 0 && h.ny >= 0 && h.nz >= 0 && i < Sites(h)
  {
    Position(h, SiteIndex(h, i))
  }

  /** `coords` is the lattice of the header: one point per site, in site
      order. */
  ghost predicate IsLattice(h: GridHeader, coords: seq<Point>)
  {
    h.nx >= 0 && h.ny >= 0 && h.nz >= 0
    && |coords| == Sites(h)
    && forall i :: 0 <= i < |coords| ==> coords[i] == LatticePoint(h, i)
  }

  /** The x column of `set_coordinates` before scaling: the x axis tiled
      ny times, then nz times. Entry `i` is the x position of site `i`. */
  lemma TiledX(h: GridHeader, i: nat)
    requires h.nx >= 0 && h.ny >= 0 && h.nz >= 0 && i < Sites(h)
    ensures var xs := Tile(Tile(Axis(h.nx, h.dx, h.xbase), h.ny), h.nz);
            |xs| == Sites(h) && Nano(xs[i]) == LatticePoint(h, i).0
  {
    var nx, ny, nz := h.nx, h.ny, h.nz;
    PositiveFactors(nx, ny, nz, i);
    var ax := Axis(nx, h.dx, h.xbase);
    TileLength(ax, ny);
    TileAt(Tile(ax, ny), nz, i);
    TileAt(ax, ny, i % (nx * ny));
    ModOfProduct(i, nx, ny);
  }

  /** The y column before scaling: the y axis repeated nx times, then tiled
      nz times. Entry `i` is the y position of site `i`. */
  lemma TiledY(h: GridHeader, i: nat)
    requires h.nx >= 0 && h.ny >= 0 && h.nz >= 0 && i < Sites(h)
    ensures var ys := Tile(Repeat(Axis(h.ny, h.dy, h.ybase), h.nx), h.nz);
            |ys| == Sites(h) && Nano(ys[i]) == LatticePoint(h, i).1
  {
    var nx, ny, nz := h.nx, h.ny, h.nz;
    var ay := Axis(ny, h.dy, h.ybase);
    var ry := Repeat(ay, nx);
    PositiveFactors(nx, ny, nz, i);
    assert |ry| == nx * ny by { RepeatLength(ay, nx); }
    var j := i % (nx * ny);
    assert |Tile(ry, nz)| == Sites(h) && Tile(ry, nz)[i] == ry[j] by { TileAt(ry, nz, i); }
    DivBelow(j, nx, ny);
    assert ry[j] == ay[j / nx] by { RepeatAt(ay, nx, j); }
    assert j / nx == (i / nx) % ny by { ModOfProduct(i, nx, ny); }
    PointY(h, i);
  }

  /** The y position of site `i`, once its row index is known. */
  lemma PointY(h: GridHeader, i: nat)
    requires h.nx >= 0 && h.ny >= 0 && h.nz >= 0 && i < Sites(h)
    ensures h.nx > 0 && h.ny > 0
    ensures 0 <= (i / h.nx) % h.ny < h.ny
    ensures LatticePoint(h, i).1 == Nano(Axis(h.ny, h.dy, h.ybase)[(i / h.nx) % h.ny])
  {
    PositiveFactors(h.nx, h.ny, h.nz, i);
  }

  /** The z position of site `i`, once its layer index is known. */
  lemma PointZ(h: GridHeader, i: nat)
    requires h.nx >= 0 && h.ny >= 0 && h.nz >= 0 && i < Sites(h)
    ensures h.nx * h.ny > 0
    ensures 0 <= i / (h.nx * h.ny) < h.nz
    ensures LatticePoint(h, i).2 == Nano(Axis(h.nz, h.dz, h.zbase)[i / (h.nx * h.ny)])
  {
    PositiveFactors(h.nx, h.ny, h.nz, i);
    DivBelow(i, h.nx * h.ny, h.nz);
  }

  /** The z column before scaling: the z axis repeated nx*ny times. Entry
      `i` is the z position of site `i`. */
  lemma TiledZ(h: GridHeader, i: nat)
    requires h.nx >= 0 && h.ny >= 0 && h.nz >= 0 && i < Sites(h)
    ensures var zs := Repeat(Axis(h.nz, h.dz, h.zbase), h.nx * h.ny);
            |zs| == Sites(h) && Nano(zs[i]) == LatticePoint(h, i).2
  {
    PointZ(h, i);
    RepeatAt(Axis(h.nz, h.dz, h.zbase), h.nx * h.ny, i);
  }

  /** The three columns have one entry per site. */
  lemma TiledLengths(h: GridHeader)
    requires h.nx >= 0 && h.ny >= 0 && h.nz >= 0
    ensures |Tile(Tile(Axis(h.nx, h.dx, h.xbase), h.ny), h.nz)| == Sites(h)
    ensures |Tile(Repeat(Axis(h.ny, h.dy, h.ybase), h.nx), h.nz)| == Sites(h)
    ensures |Repeat(Axis(h.nz, h.dz, h.zbase), h.nx * h.ny)| == Sites(h)
  {
    var nx, ny, nz := h.nx, h.ny, h.nz;
    MulNonneg(nx, ny);
    var ax, ay, az := Axis(nx, h.dx, h.xbase), Axis(ny, h.dy, h.ybase), Axis(nz, h.dz, h.zbase);
    TileLength(ax, ny);
    TileLength(Tile(ax, ny), nz);
    RepeatLength(ay, nx);
    assert ny * nx == nx * ny;
    TileLength(Repeat(ay, nx), nz);
    RepeatLength(az, nx * ny);
    assert nz * (nx * ny) == nx * ny * nz;
  }

  /** `np.column_stack((xs, ys, zs)) * 1e9`. */
  function Stack(xs: seq<real>, ys: seq<real>, zs: seq<real>): (r: seq<Point>)
    requires |xs| == |ys| == |zs|
    ensures |r| == |xs|
  {
    seq(|xs|, i requires 0 <= i < |xs| => (Nano(xs[i]), Nano(ys[i]), Nano(zs[i])))
  }

  /** The x column: the x axis tiled ny times, then nz times. */
  function XColumn(h: GridHeader): (r: seq<real>)
    requires h.nx >= 0 && h.ny >= 0 && h.nz >= 0
    ensures |r| == Sites(h)
  {
    TiledLengths(h);
    Tile(Tile(Axis(h.nx, h.dx, h.xbase), h.ny), h.nz)
  }

  /** The y column: the y axis repeated nx times, then tiled nz times. */
  function YColumn(h: GridHeader): (r: seq<real>)
    requires h.nx >= 0 && h.ny >= 0 && h.nz >= 0
    ensures |r| == Sites(h)
  {
    TiledLengths(h);
    Tile(Repeat(Axis(h.ny, h.dy, h.ybase), h.nx), h.nz)
  }

  /** The z column: the z axis repeated nx*ny times. */
  function ZColumn(h: GridHeader): (r: seq<real>)
    requires h.nx >= 0 && h.ny >= 0 && h.nz >= 0
    ensures |r| == Sites(h)
  {
    TiledLengths(h);
    Repeat(Axis(h.nz, h.dz, h.zbase), h.nx * h.ny)
  }

  /** The three columns stacked and scaled are the lattice of the header. */
  lemma StackedColumns(h: GridHeader)
    requires h.nx >= 0 && h.ny >= 0 && h.nz >= 0
    ensures IsLattice(h, Stack(XColumn(h), YColumn(h), ZColumn(h)))
  {
    var c := Stack(XColumn(h), YColumn(h), ZColumn(h));
    forall i | 0 <= i < |c|
      ensures c[i] == LatticePoint(h, i)
    {
      TiledX(h, i);
      TiledY(h, i);
      TiledZ(h, i);
    }
  }

  /** Every site (ix, iy, iz) of the grid is the site with index
      ix + nx*(iy + ny*iz), and that index decomposes back into it. With
      `SiteOfIndex`, the lattice lists each site exactly once, for each z
      layer, each y row, each x column. */
  lemma LatticeIndex(nx: nat, ny: nat, nz: nat, ix: nat, iy: nat, iz: nat)
    requires ix < nx && iy < ny && iz < nz
    ensures var i := ix + nx * (iy + ny * iz);
            i < nx * ny * nz && i % nx == ix && (i / nx) % ny == iy && i / (nx * ny) == iz
  {
    var j := iy + ny * iz;
    var i := ix + nx * j;
    BlockBound(ny, iz, nz, iy);
    BlockBound(nx, j, ny * nz, ix);
    MulAssoc(nx, ny, nz);
    DivModUnique(i, nx, j, ix);
    DivModUnique(j, ny, iz, iy);
    BlockBound(nx, iy, ny, ix);
    MulDistAdd(nx, iy, ny * iz);
    MulAssoc(nx, ny, iz);
    DivModUnique(i, nx * ny, iz, ix + nx * iy);
  }

  /** The converse of `LatticeIndex`: every index below nx*ny*nz
      decomposes into a grid site (i mod nx, (i div nx) mod ny,
      i div (nx*ny)), and that site has the index i again. With
      `LatticeIndex`, sites and indices are in one-to-one correspondence. */
  lemma SiteOfIndex(nx: nat, ny: nat, nz: nat, i: nat)
    requires i < nx * ny * nz
    ensures i % nx < nx && (i / nx) % ny < ny && i / (nx * ny) < nz
    ensures i == i % nx + nx * ((i / nx) % ny + ny * (i / (nx * ny)))
  {
    PositiveFactors(nx, ny, nz, i);
    var q, r := i / (nx * ny), i % (nx * ny);
    DivBelow(i, nx * ny, nz);
    DivBelow(r, nx, ny);
    MulDistAdd(nx, ny * q, r / nx);
    MulAssoc(nx, ny, q);
    DivModUnique(i, nx, ny * q + r / nx, r % nx);
    DivModUnique(i / nx, ny, q, r / nx);
  }

  /** Within a row, the next index has the next x index and the same
      row number. */
  lemma NextInRow(i: nat, nx: int)
    requires nx > 0 && (i + 1) % nx != 0
    ensures (i + 1) % nx == i % nx + 1 && (i + 1) / nx == i / nx
  {
    var q, r := i / nx, i % nx;
    if r + 1 == nx {
      MulDistAdd(nx, q, 1);
      DivModUnique(i + 1, nx, q + 1, 0);
      assert false;
    }
    DivModUnique(i + 1, nx, q, r + 1);
  }

  /** Within a row, the next index lies in the same layer of nx*ny sites. */
  lemma NextInLayer(i: nat, nx: int, ny: int)
    requires nx > 0 && ny > 0 && (i + 1) % nx != 0
    ensures (i + 1) / (nx * ny) == i / (nx * ny)
  {
    MulGe(nx, ny);
    var m := nx * ny;
    var q, r := i / m, i % m;
    if r + 1 == m {
      MulDistAdd(m, q, 1);
      MulAssoc(nx, ny, q + 1);
      DivModUnique(i + 1, nx, ny * (q + 1), 0);
      assert false;
    }
    DivModUnique(i + 1, m, q, r + 1);
  }

  /** Within a row, the next site has the next x index and the same y and
      z indices. */
  lemma SiteIndexStep(h: GridHeader, i: nat)
    requires h.nx >= 0 && h.ny >= 0 && h.nz >= 0 && i + 1 < Sites(h)
    requires (i + 1) % h.nx != 0
    ensures var c := SiteIndex(h, i);
            SiteIndex(h, i + 1) == (c.0 + 1, c.1, c.2)
  {
    PositiveFactors(h.nx, h.ny, h.nz, i + 1);
    NextInRow(i, h.nx);
    NextInLayer(i, h.nx, h.ny);
  }

  /** Moving to the next site changes only x, by one step, unless the row
      ends; x varies fastest. */
  lemma LatticeStepX(h: GridHeader, i: nat)
    requires h.nx >= 0 && h.ny >= 0 && h.nz >= 0 && i + 1 < Sites(h)
    requires (i + 1) % h.nx != 0
    ensures LatticePoint(h, i + 1).0 == LatticePoint(h, i).0 + Nano(h.dx)
    ensures LatticePoint(h, i + 1).1 == LatticePoint(h, i).1
    ensures LatticePoint(h, i + 1).2 == LatticePoint(h, i).2
  {
    var c := SiteIndex(h, i);
    assert LatticePoint(h, i + 1) == Position(h, (c.0 + 1, c.1, c.2)) by {
      SiteIndexStep(h, i);
    }
    PositionStepX(h, c);
  }

  /** One x step further along the grid moves the position by dx only. */
  lemma PositionStepX(h: GridHeader, c: (int, int, int))
    ensures var p, q := Position(h, c), Position(h, (c.0 + 1, c.1, c.2));
            q.0 == p.0 + Nano(h.dx) && q.1 == p.1 && q.2 == p.2
  {
    var d := (c.0 + 1, c.1, c.2);
    assert d.1 == c.1 && d.2 == c.2;
    assert Position(h, d).1 == Position(h, c).1;
    assert Position(h, d).2 == Position(h, c).2;
    assert (c.0 + 1) as real * h.dx == c.0 as real * h.dx + h.dx;
  }
}
