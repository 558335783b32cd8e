/** `OOMMFDataRead` of oommf_tools.py: an object that reads the header of an
    OMF file into its attributes and then builds the coordinate lattice from
    those attributes alone. */
module OmfReader {
  import opened Wrappers
  import opened Errors
  import opened Text
  import opened OmfHeader
  import opened Lattice

  /** `a *= k` on a numpy array. */
  method Scale(a: array<real>, k: real)
    modifies a
    ensures forall i :: 0 <= i < a.Length ==> a[i] == old(a[i]) * k
  {
    for i := 0 to a.Length
      invariant forall j :: 0 <= j < i ==> a[j] == old(a[j]) * k
      invariant forall j :: i <= j < a.Length ==> a[j] == old(a[j])
    {
      a[i] := a[i] * k;
    }
  }

  /** `a += b` on a numpy array. */
  method Shift(a: array<real>, b: real)
    modifies a
    ensures forall i :: 0 <= i < a.Length ==> a[i] == old(a[i]) + b
  {
    for i := 0 to a.Length
      invariant forall j :: 0 <= j < i ==> a[j] == old(a[j]) + b
      invariant forall j :: i <= j < a.Length ==> a[j] == old(a[j])
    {
      a[i] := a[i] + b;
    }
  }

  /** `np.arange(float(n))` scaled by `step` and shifted by `base` in place. */
  method AxisArray(n: nat, step: real, base: real) returns (a: array<real>)
    ensures fresh(a) && a[..] == Axis(n, step, base)
  {
    a := new real[n](k => k as real);
    Scale(a, step);
    Shift(a, base);
    assert forall k :: 0 <= k < n ==> a[k] == Axis(n, step, base)[k];
  }

  /** The body of `set_coordinates` for a header with non-negative counts:
      the axes from `arange`, scaled and shifted in place, tiled and
      repeated into one column per coordinate, stacked and scaled to
      nanometres. The result is the lattice of the header. */
  method BuildLattice(h: GridHeader) returns (c: seq<Point>)
    requires h.nx >= 0 && h.ny >= 0 && h.nz >= 0
    ensures IsLattice(h, c)
  {
    var xs := AxisArray(h.nx, h.dx, h.xbase);
    var ys := AxisArray(h.ny, h.dy, h.ybase);
    var zs := AxisArray(h.nz, h.dz, h.zbase);
    TiledLengths(h);
    c := Stack(Tile(Tile(xs[..], h.ny), h.nz), Tile(Repeat(ys[..], h.nx), h.nz), Repeat(zs[..], h.nx * h.ny));
    assert c == Stack(XColumn(h), YColumn(h), ZColumn(h));
    StackedColumns(h);
  }

  /** `OOMMFDataRead(input_file)`: a reader whose header is read at once;
      a header that does not parse raises instead of giving a reader. */
  method Open(inputFile: seq<string>, parse: string -> Option<real>) returns (r: Result<OommfDataRead, Error>)
    ensures r.Success? <==> ParseHeader(inputFile, parse).Success?
    ensures r.Failure? ==> r.error == ParseHeader(inputFile, parse).error
    ensures r.Success? ==> fresh(r.value) && r.value.inputFile == inputFile
                           && r.value.Header() == ParseHeader(inputFile, parse).value
                           && r.value.coordinates == []
  {
    var reader := new OommfDataRead(inputFile);
    var o := reader.ReadHeader(parse);
    if o.Fail? {
      return Failure(o.error);
    }
    return Success(reader);
  }

  class OommfDataRead {
    /** The lines of the input file, as `readline()` returns them. */
    var inputFile: seq<string>

    // The twelve header attributes, in the order of the key table.
    var dx: real
    var dy: real
    var dz: real
    var xbase: real
    var ybase: real
    var zbase: real
    var xmin: real
    var ymin: real
    var zmin: real
    var xmax: real
    var ymax: real
    var zmax: real

    // The cell counts.
    var nx: int
    var ny: int
    var nz: int

    // The lattice and its three columns.
    var coordinates: seq<Point>
    var x: seq<real>
    var y: seq<real>
    var z: seq<real>

    /** The attribute stored for key `j`. */
    function Attr(j: nat): real
      reads this
      requires j < |Keys|
    {
      AttrValue(Header(), j)
    }

    /** The header the object holds. */
    function Header(): GridHeader
      reads this
    {
      GridHeader(dx, dy, dz, xbase, ybase, zbase, xmin, ymin, zmin, xmax, ymax, zmax, nx, ny, nz)
    }

    /** Creates a reader for `inputFile`; nothing is read yet. */
    constructor (inputFile: seq<string>)
      ensures this.inputFile == inputFile
      ensures coordinates == [] && x == [] && y == [] && z == []
    {
      this.inputFile := inputFile;
      coordinates, x, y, z := [], [], [], [];
    }

    /** `setattr(self, name, value)` for the attribute of key `j`. */
    method SetAttr(j: nat, v: real)
      requires j < |Keys|
      modifies this
      ensures Attr(j) == v
      ensures forall t :: 0 <= t < |Keys| && t != j ==> Attr(t) == old(Attr(t))
      ensures inputFile == old(inputFile) && nx == old(nx) && ny == old(ny) && nz == old(nz)
      ensures coordinates == old(coordinates) && x == old(x) && y == old(y) && z == old(z)
    {
      match j
      case 0 => dx := v;
      case 1 => dy := v;
      case 2 => dz := v;
      case 3 => xbase := v;
      case 4 => ybase := v;
      case 5 => zbase := v;
      case 6 => xmin := v;
      case 7 => ymin := v;
      case 8 => zmin := v;
      case 9 => xmax := v;
      case 10 => ymax := v;
      case _ => zmax := v;
    }

    /** The first half of `read_header`: `readline()` until a line starts
        with the data marker, concatenating the lines before it. Unlike the
        source's loop, this one also stops at the end of the file, and then
        reports the marker missing. */
    method CollectHeader() returns (r: Result<string, Error>)
      ensures r == HeaderText(inputFile)
    {
      var i := 0;
      var line := ReadLine(inputFile, 0);
      var data := "";
      while i < |inputFile| && !StartsWith(line, DataMarker)
        invariant 0 <= i <= |inputFile|
        invariant line == ReadLine(inputFile, i)
        invariant data == Concat(inputFile[..i])
        invariant forall j :: 0 <= j < i ==> !StartsWith(inputFile[j], DataMarker)
        decreases |inputFile| - i
      {
        assert inputFile[..i + 1][..i] == inputFile[..i];
        data := data + line;
        i := i + 1;
        line := ReadLine(inputFile, i);
      }
      if i == |inputFile| {
        return Failure(MissingDataMarker);
      }
      assert FindMarker(inputFile, 0) == Some(i);
      return Success(data);
    }

    /** The loop over the keys: search, convert, `setattr`; the first key
        that is missing or malformed raises, keeping what was stored. */
    method StoreValues(data: string, parse: string -> Option<real>) returns (o: Outcome<Error>)
      modifies this
      ensures o == ExtractKeys(KeyResults(data, parse, Keys), |Keys|).1
      ensures o.Fail? ==> o.error.MissingKey? || o.error.MalformedNumber?
      ensures var v := ExtractKeys(KeyResults(data, parse, Keys), |Keys|).0;
              forall t :: 0 <= t < |Keys| ==> Attr(t) == if t < |v| then v[t] else old(Attr(t))
      ensures inputFile == old(inputFile) && nx == old(nx) && ny == old(ny) && nz == old(nz)
      ensures coordinates == old(coordinates) && x == old(x) && y == old(y) && z == old(z)
    {
      ghost var rs := KeyResults(data, parse, Keys);
      ghost var vals: seq<real> := [];
      for j := 0 to |Keys|
        invariant ExtractKeys(rs, j) == (vals, Pass)
        invariant |vals| == j
        invariant forall t :: 0 <= t < |Keys| ==> Attr(t) == if t < j then vals[t] else old(Attr(t))
        invariant inputFile == old(inputFile) && nx == old(nx) && ny == old(ny) && nz == old(nz)
        invariant coordinates == old(coordinates) && x == old(x) && y == old(y) && z == old(z)
      {
        ExtractKeysStep(rs, j);
        assert rs[j] == KeyResult(data, parse, Keys[j]);
        var tok := SearchValue(data, Keys[j]);
        if tok.None? {
          ExtractKeysStops(rs, j + 1, |Keys|);
          return Fail(MissingKey(Keys[j]));
        }
        var v := parse(tok.value);
        if v.None? {
          ExtractKeysStops(rs, j + 1, |Keys|);
          return Fail(MalformedNumber(Keys[j], tok.value));
        }
        SetAttr(j, v.value);
        vals := vals + [v.value];
      }
      return Pass;
    }

    /** The last part of `read_header`: nx, ny and nz in that order; the
        first zero step raises and leaves the later counts as they were. */
    method ComputeCounts() returns (o: Outcome<Error>)
      modifies this`nx, this`ny, this`nz
      ensures o.Pass? <==> dx != 0.0 && dy != 0.0 && dz != 0.0
      ensures o.Pass? ==> CountsAgree(Header())
      ensures o == Fail(ZeroStep(X)) <==> dx == 0.0
      ensures o == Fail(ZeroStep(Y)) <==> dx != 0.0 && dy == 0.0
      ensures o == Fail(ZeroStep(Z)) <==> dx != 0.0 && dy != 0.0 && dz == 0.0
      ensures dx != 0.0 ==> nx == Trunc((xmax - xmin) / dx)
      ensures dx != 0.0 && dy != 0.0 ==> ny == Trunc((ymax - ymin) / dy)
      ensures dx == 0.0 ==> nx == old(nx)
      ensures dx == 0.0 || dy == 0.0 ==> ny == old(ny)
      ensures !CountsAgree(Header()) ==> nz == old(nz)
      ensures o == Fail(ZeroStep(X)) ==> nx == old(nx) && ny == old(ny) && nz == old(nz)
      ensures o == Fail(ZeroStep(Y)) ==>
                dx != 0.0 && nx == Trunc((xmax - xmin) / dx) && ny == old(ny) && nz == old(nz)
      ensures o == Fail(ZeroStep(Z)) ==>
                dx != 0.0 && dy != 0.0 && nx == Trunc((xmax - xmin) / dx) && ny == Trunc((ymax - ymin) / dy) && nz == old(nz)
      ensures forall t :: 0 <= t < |Keys| ==> Attr(t) == old(Attr(t))
    {
      if dx == 0.0 {
        return Fail(ZeroStep(X));
      }
      nx := Trunc((xmax - xmin) / dx);
      if dy == 0.0 {
        return Fail(ZeroStep(Y));
      }
      ny := Trunc((ymax - ymin) / dy);
      if dz == 0.0 {
        return Fail(ZeroStep(Z));
      }
      nz := Trunc((zmax - zmin) / dz);
      return Pass;
    }

    /** The part of `read_header` after the header text: store the twelve
        values, then compute the cell counts. The outcome is that of the
        key loop, then that of the counts; the header agrees with
        `BuildHeader` of the values; on a failure the values stored before
        it stay, and so do the counts a zero step stopped before computing. */
    method LoadValues(text: string, parse: string -> Option<real>) returns (res: Outcome<Error>)
      modifies this
      ensures inputFile == old(inputFile)
      ensures coordinates == old(coordinates) && x == old(x) && y == old(y) && z == old(z)
      ensures var e := ExtractKeys(KeyResults(text, parse, Keys), |Keys|);
              e.1.Fail? ==> res == e.1
      ensures var e := ExtractKeys(KeyResults(text, parse, Keys), |Keys|);
              e.1.Pass? ==> |e.0| == |Keys|
                            && (res.Pass? <==> BuildHeader(e.0).Success?)
                            && (res.Fail? ==> res.error == BuildHeader(e.0).error)
                            && (res.Pass? ==> Header() == BuildHeader(e.0).value)
      ensures res.Fail? && res.error != ZeroStep(Y) && res.error != ZeroStep(Z) ==>
                nx == old(nx) && ny == old(ny) && nz == old(nz)
      ensures res == Fail(ZeroStep(Y)) ==>
                dx != 0.0 && nx == Trunc((xmax - xmin) / dx) && ny == old(ny) && nz == old(nz)
      ensures res == Fail(ZeroStep(Z)) ==>
                dx != 0.0 && dy != 0.0 && nx == Trunc((xmax - xmin) / dx) && ny == Trunc((ymax - ymin) / dy) && nz == old(nz)
      ensures var v := ExtractKeys(KeyResults(text, parse, Keys), |Keys|).0;
              forall t :: 0 <= t < |Keys| ==> Attr(t) == if t < |v| then v[t] else old(Attr(t))
    {
      var o := StoreValues(text, parse);
      if o.Fail? {
        return o;
      }
      ghost var vals := ExtractKeys(KeyResults(text, parse, Keys), |Keys|).0;
      assert |vals| == |Keys|;
      assert dx == vals[0] && dy == vals[1] && dz == vals[2] by {
        assert Attr(0) == vals[0] && Attr(1) == vals[1] && Attr(2) == vals[2];
      }
      res := ComputeCounts();
      if res.Pass? {
        HeaderMatches(vals);
      }
    }

    /** `read_header`: collect the header text, store the twelve values,
        compute the cell counts. The outcome and the header agree with
        `ParseHeader`; on a failure the values stored before it stay, and
        so do the counts a zero step stopped before computing. */
    method ReadHeader(parse: string -> Option<real>) returns (res: Outcome<Error>)
      modifies this
      ensures inputFile == old(inputFile)
      ensures coordinates == old(coordinates) && x == old(x) && y == old(y) && z == old(z)
      ensures res.Pass? <==> ParseHeader(inputFile, parse).Success?
      ensures res.Fail? ==> res.error == ParseHeader(inputFile, parse).error
      ensures res.Pass? ==> Header() == ParseHeader(inputFile, parse).value
      ensures res.Fail? && res.error != ZeroStep(Y) && res.error != ZeroStep(Z) ==>
                nx == old(nx) && ny == old(ny) && nz == old(nz)
      ensures res == Fail(ZeroStep(Y)) ==>
                dx != 0.0 && nx == Trunc((xmax - xmin) / dx) && ny == old(ny) && nz == old(nz)
      ensures res == Fail(ZeroStep(Z)) ==>
                dx != 0.0 && dy != 0.0 && nx == Trunc((xmax - xmin) / dx) && ny == Trunc((ymax - ymin) / dy) && nz == old(nz)
      ensures HeaderText(inputFile).Failure? ==>
                forall t :: 0 <= t < |Keys| ==> Attr(t) == old(Attr(t))
      ensures HeaderText(inputFile).Success? ==>
                var v := ExtractKeys(KeyResults(HeaderText(inputFile).value, parse, Keys), |Keys|).0;
                forall t :: 0 <= t < |Keys| ==> Attr(t) == if t < |v| then v[t] else old(Attr(t))
    {
      ParseHeaderCases(inputFile, parse);
      var text := CollectHeader();
      if text.Failure? {
        return Fail(text.error);
      }
      res := LoadValues(text.value, parse);
    }

    /** `set_coordinates`: `coordinates` becomes the lattice of the header
        and `x`, `y` and `z` its three columns. A negative count is an
        error and changes nothing. */
    method SetCoordinates() returns (res: Outcome<Error>)
      modifies this`coordinates, this`x, this`y, this`z
      ensures res.Fail? <==> nx < 0 || ny < 0 || nz < 0
      ensures res.Fail? ==> res.error == NegativeCellCount(if nx < 0 then X else if ny < 0 then Y else Z)
      ensures res.Fail? ==> coordinates == old(coordinates) && x == old(x) && y == old(y) && z == old(z)
      ensures res.Pass? ==> IsLattice(Header(), coordinates)
      ensures res.Pass? ==> |x| == |coordinates| && |y| == |coordinates| && |z| == |coordinates|
      ensures res.Pass? ==> forall i :: 0 <= i < |coordinates| ==>
                              coordinates[i] == (x[i], y[i], z[i])
    {
      if nx < 0 {
        return Fail(NegativeCellCount(X));
      }
      if ny < 0 {
        return Fail(NegativeCellCount(Y));
      }
      if nz < 0 {
        return Fail(NegativeCellCount(Z));
      }
      var c := BuildLattice(Header());
      var n := |c|;
      coordinates := c;
      x := seq(n, i requires 0 <= i < n => c[i].0);
      y := seq(n, i requires 0 <= i < n => c[i].1);
      z := seq(n, i requires 0 <= i < n => c[i].2);
      return Pass;
    }

    /** The header the object holds is the one built from `vals`. */
    lemma HeaderMatches(vals: seq<real>)
      requires |vals| == |Keys|
      requires forall t :: 0 <= t < |Keys| ==> Attr(t) == vals[t]
      requires BuildHeader(vals).Success?
      requires CountsAgree(Header())
      ensures Header() == BuildHeader(vals).value
    {
    }
  }
}
