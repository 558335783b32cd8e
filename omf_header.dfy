/** The header of an OOMMF regular-grid (OMF) file, as `OOMMFDataRead.read_header`
    in oommf_tools.py reads it: the text up to the `# Begin: Data Text` line,
    twelve numeric values found by a regular-expression search, and the cell
    counts derived from them.

    A file is the sequence of its lines as `readline()` returns them (each
    with its newline); reading past the end yields "". Converting a numeric
    token to a number (`float(...)`) is the parameter `parse`, which answers
    None where the conversion raises. */
module OmfHeader {
  import opened Wrappers
  import opened Errors
  import opened Text

  const DataMarker: string := "# Begin: Data Text"

  /** The keys searched for, in the order of the source's attribute
      table; the j-th is stored under the j-th attribute of `GridHeader`
      (xstepsize, ystepsize and zstepsize under dx, dy and dz, the others
      under their own names). */
  const Keys: seq<string> :=
    ["xstepsize", "ystepsize", "zstepsize",
     "xbase", "ybase", "zbase",
     "xmin", "ymin", "zmin",
     "xmax", "ymax", "zmax"]

  /** The header values and the cell counts derived from them. */
  datatype GridHeader = GridHeader(
    dx: real, dy: real, dz: real,
    xbase: real, ybase: real, zbase: real,
    xmin: real, ymin: real, zmin: real,
    xmax: real, ymax: real, zmax: real,
    nx: int, ny: int, nz: int)

  /** The value the header stores for key `j` of `Keys`. */
  function AttrValue(h: GridHeader, j: nat): real
    requires j < 12
  {
    match j
    case 0 => h.dx
    case 1 => h.dy
    case 2 => h.dz
    case 3 => h.xbase
    case 4 => h.ybase
    case 5 => h.zbase
    case 6 => h.xmin
    case 7 => h.ymin
    case 8 => h.zmin
    case 9 => h.xmax
    case 10 => h.ymax
    case _ => h.zmax
  }

  // ---------------------------------------------------------------------------
  // The header text

  /** The first line at or after `i` that starts with the data marker. */
  function FindMarker(lines: seq<string>, i: nat): (r: Option<nat>)
    ensures r.Some? ==> i <= r.value < |lines| && StartsWith(lines[r.value], DataMarker)
                        && forall j :: i <= j < r.value ==> !StartsWith(lines[j], DataMarker)
    ensures r.None? ==> forall j :: i <= j < |lines| ==> !StartsWith(lines[j], DataMarker)
    decreases |lines| - i
  {
    if i >= |lines| then None
    else if StartsWith(lines[i], DataMarker) then Some(i)
    else FindMarker(lines, i + 1)
  }

  /** The header text: every line before the first one that starts with the
      data marker, concatenated; that line and all later ones are excluded. */
  function HeaderText(lines: seq<string>): (r: Result<string, Error>)
    ensures r.Failure? <==> forall j :: 0 <= j < |lines| ==> !StartsWith(lines[j], DataMarker)
    ensures r.Failure? ==> r.error == MissingDataMarker
    ensures r.Success? ==>
              exists k :: 0 <= k < |lines| && StartsWith(lines[k], DataMarker)
                          && (forall j :: 0 <= j < k ==> !StartsWith(lines[j], DataMarker))
                          && r.value == Concat(lines[..k])
  {
    match FindMarker(lines, 0)
    case None => Failure(MissingDataMarker)
    case Some(k) => Success(Concat(lines[..k]))
  }

  /** The header loop exactly as the source writes it: append the current
      line until a line starts with the marker. At the end of the file the
      line read is "" and never starts with the marker, so the loop only
      stops at a marker line; `fuel` bounds how many appends are simulated. */
  function HeaderLoopAsWritten(lines: seq<string>, i: nat, data: string, fuel: nat): Option<string>
    decreases fuel
  {
    var line := ReadLine(lines, i);
    if StartsWith(line, DataMarker) then Some(data)
    else if fuel == 0 then None
    else HeaderLoopAsWritten(lines, i + 1, data + line, fuel - 1)
  }

  /** On a file with no marker line the source's loop never exits, however
      many iterations are allowed. */
  lemma {:induction false} HeaderLoopNeverExits(lines: seq<string>, i: nat, data: string, fuel: nat)
    requires forall j :: 0 <= j < |lines| ==> !StartsWith(lines[j], DataMarker)
    ensures HeaderLoopAsWritten(lines, i, data, fuel) == None
    decreases fuel
  {
    assert !StartsWith(ReadLine(lines, i), DataMarker);
    if fuel > 0 {
      HeaderLoopNeverExits(lines, i + 1, data + ReadLine(lines, i), fuel - 1);
    }
  }

  /** Where the marker exists, the source's loop returns exactly the header
      text after as many appends as there are header lines. */
  lemma {:induction false} HeaderLoopAgrees(lines: seq<string>, i: nat, k: nat)
    requires k < |lines| && StartsWith(lines[k], DataMarker)
    requires forall j :: 0 <= j < k ==> !StartsWith(lines[j], DataMarker)
    requires i <= k
    ensures HeaderLoopAsWritten(lines, i, Concat(lines[..i]), k - i) == Some(Concat(lines[..k]))
    decreases k - i
  {
    if i < k {
      assert lines[..i + 1][..i] == lines[..i];
      assert Concat(lines[..i + 1]) == Concat(lines[..i]) + ReadLine(lines, i);
      HeaderLoopAgrees(lines, i + 1, k);
    }
  }

  /** A text OMF file cut off after its header: no data section follows,
      so no line starts with the marker. */
  const TruncatedFile: seq<string> :=
    ["# OOMMF: rectangular mesh v1.0\n", "# Segment count: 1\n", "# Begin: Segment\n",
     "# Begin: Header\n", "# xstepsize: 1e-09\n", "# End: Header\n"]

  /** On that file the source's loop reads past the end of the file and
      never exits, while the header text is reported missing. */
  lemma TruncatedFileHangs(fuel: nat)
    ensures HeaderLoopAsWritten(TruncatedFile, 0, "", fuel) == None
    ensures HeaderText(TruncatedFile) == Failure(MissingDataMarker)
  {
    var f := TruncatedFile;
    assert f[0][2] != DataMarker[2] && f[1][2] != DataMarker[2] && f[4][2] != DataMarker[2];
    assert |f[2]| < |DataMarker| && |f[3]| < |DataMarker| && |f[5]| < |DataMarker|;
    assert forall j :: 0 <= j < |f| ==> !StartsWith(f[j], DataMarker);
    HeaderLoopNeverExits(TruncatedFile, 0, "", fuel);
  }

  // ---------------------------------------------------------------------------
  // Key extraction: re.search('(?<=KEY: )[0-9\-\.e]+', text)

  /** The character class of the numeric token. */
  predicate IsNumChar(c: char)
  {
    ('0' <= c <= '9') || c == '-' || c == '.' || c == 'e'
  }

  /** Length of the maximal run of numeric characters starting at `p`. */
  function NumRunLen(s: string, p: nat): (n: nat)
    requires p <= |s|
    ensures p + n <= |s|
    ensures forall j :: p <= j < p + n ==> IsNumChar(s[j])
    ensures p + n == |s| || !IsNumChar(s[p + n])
    decreases |s| - p
  {
    if p == |s| || !IsNumChar(s[p]) then 0 else 1 + NumRunLen(s, p + 1)
  }

  /** The pattern matches at `p`: `KEY: ` ends just before `p` and at least
      one numeric character follows. */
  predicate ValueAt(s: string, key: string, p: nat)
  {
    |key| + 2 <= p < |s| && OccursAt(s, p - |key| - 2, key + ": ") && IsNumChar(s[p])
  }

  /** The leftmost position at or after `p` where the pattern matches. */
  function FindValue(s: string, key: string, p: nat): (r: Option<nat>)
    ensures r.Some? ==> p <= r.value && ValueAt(s, key, r.value)
                        && forall j :: p <= j < r.value ==> !ValueAt(s, key, j)
    ensures r.None? ==> forall j :: p <= j ==> !ValueAt(s, key, j)
    decreases |s| - p
  {
    if p >= |s| then None
    else if ValueAt(s, key, p) then Some(p)
    else FindValue(s, key, p + 1)
  }

  /** The matched token, or None where `re.search` finds nothing. */
  function SearchValue(s: string, key: string): Option<string>
  {
    match FindValue(s, key, 0)
    case None => None
    case Some(p) => Some(s[p..p + NumRunLen(s, p)])
  }

  /** The search finds nothing exactly when no `KEY: ` is followed by a
      numeric character; otherwise the token is the maximal non-empty
      numeric run at the leftmost place where one is. */
  lemma SearchValueSpec(s: string, key: string)
    ensures SearchValue(s, key).None? <==> forall p :: !ValueAt(s, key, p)
    ensures SearchValue(s, key).Some? ==>
              exists p: nat :: ValueAt(s, key, p) && (forall j :: 0 <= j < p ==> !ValueAt(s, key, j))
                          && SearchValue(s, key).value == s[p..p + NumRunLen(s, p)]
    ensures SearchValue(s, key).Some? ==>
              var tok := SearchValue(s, key).value;
              tok != [] && forall i :: 0 <= i < |tok| ==> IsNumChar(tok[i])
  {
    match FindValue(s, key, 0)
    case None =>
    case Some(p) =>
      assert NumRunLen(s, p) > 0;
  }

  /** The value stored for `key`: the token the search finds, converted;
      a search that finds nothing or a token that does not convert raises. */
  function KeyResult(text: string, parse: string -> Option<real>, key: string): Result<real, Error>
  {
    match SearchValue(text, key)
    case None => Failure(MissingKey(key))
    case Some(tok) =>
      match parse(tok)
      case None => Failure(MalformedNumber(key, tok))
      case Some(v) => Success(v)
  }

  /** The value or the error of each key, in key order. */
  function KeyResults(text: string, parse: string -> Option<real>, keys: seq<string>): (r: seq<Result<real, Error>>)
    ensures |r| == |keys|
  {
    seq(|keys|, j requires 0 <= j < |keys| => KeyResult(text, parse, keys[j]))
  }

  /** The values the loop over the first `n` keys stores, in key order, and
      whether it got through them: it stops at the first key whose result
      is an error, keeping the values stored before it. */
  function ExtractKeys(rs: seq<Result<real, Error>>, n: nat): (r: (seq<real>, Outcome<Error>))
    requires n <= |rs|
    ensures |r.0| <= n && (r.1.Pass? <==> |r.0| == n)
  {
    if n == 0 then ([], Pass)
    else
      var prev := ExtractKeys(rs, n - 1);
      if prev.1.Fail? then prev
      else if rs[n - 1].Failure? then (prev.0, Fail(rs[n - 1].error))
      else (prev.0 + [rs[n - 1].value], Pass)
  }

  /** Each stored value is the value of its own key, and a failure carries
      the error of the first key whose result is an error. */
  lemma {:induction false} ExtractKeysSpec(rs: seq<Result<real, Error>>, n: nat)
    requires n <= |rs|
    ensures var r := ExtractKeys(rs, n);
            forall j :: 0 <= j < |r.0| ==> rs[j].Success? && r.0[j] == rs[j].value
    ensures var r := ExtractKeys(rs, n);
            r.1.Fail? ==> rs[|r.0|].Failure? && r.1.error == rs[|r.0|].error
  {
    if n > 0 {
      ExtractKeysSpec(rs, n - 1);
      var prev := ExtractKeys(rs, n - 1);
      if prev.1.Pass? && rs[n - 1].Success? {
        var r := ExtractKeys(rs, n);
        assert r.0 == prev.0 + [rs[n - 1].value];
      }
    }
  }

  /** One more key: appended when its result is a value, otherwise the loop
      stops with its error. */
  lemma ExtractKeysStep(rs: seq<Result<real, Error>>, j: nat)
    requires j < |rs| && ExtractKeys(rs, j).1.Pass?
    ensures rs[j].Success? ==> ExtractKeys(rs, j + 1) == (ExtractKeys(rs, j).0 + [rs[j].value], Pass)
    ensures rs[j].Failure? ==> ExtractKeys(rs, j + 1) == (ExtractKeys(rs, j).0, Fail(rs[j].error))
  {
  }

  /** Once the loop has failed, later keys are not looked at: the stored
      values and the error stay those of the first failure. */
  lemma {:induction false} ExtractKeysStops(rs: seq<Result<real, Error>>, n: nat, m: nat)
    requires n <= m <= |rs|
    requires ExtractKeys(rs, n).1.Fail?
    ensures ExtractKeys(rs, m) == ExtractKeys(rs, n)
    decreases m - n
  {
    if m > n {
      ExtractKeysStops(rs, n, m - 1);
    }
  }

  // ---------------------------------------------------------------------------
  // Cell counts: int((max - min) / step)

  /** Python's `int()` on a number: truncation toward zero. */
  function Trunc(x: real): (n: int)
    ensures 0.0 <= x ==> n as real <= x < n as real + 1.0
    ensures x < 0.0 ==> n as real - 1.0 < x <= n as real
  {
    if x >= 0.0 then x.Floor else -((-x).Floor)
  }

  /** The number of cells along one axis; a zero step raises. */
  function CellCount(lo: real, hi: real, step: real, axis: Dim): (r: Result<int, Error>)
    ensures r.Failure? <==> step == 0.0
    ensures r.Failure? ==> r.error == ZeroStep(axis)
    ensures r.Success? ==> r.value == Trunc((hi - lo) / step)
  {
    if step == 0.0 then Failure(ZeroStep(axis)) else Success(Trunc((hi - lo) / step))
  }

  /** When the extent is a whole number of steps, the count is that number. */
  lemma CellCountExact(lo: real, hi: real, step: real, n: nat, axis: Dim)
    requires step != 0.0 && hi - lo == n as real * step
    ensures CellCount(lo, hi, step, axis) == Success(n)
  {
    assert (hi - lo) / step == n as real;
  }

  // ---------------------------------------------------------------------------
  // The whole header

  /** The steps are non-zero and each count is the extent over the step,
      truncated toward zero. */
  predicate CountsAgree(h: GridHeader)
  {
    h.dx != 0.0 && h.dy != 0.0 && h.dz != 0.0
    && h.nx == Trunc((h.xmax - h.xmin) / h.dx)
    && h.ny == Trunc((h.ymax - h.ymin) / h.dy)
    && h.nz == Trunc((h.zmax - h.zmin) / h.dz)
  }

  /** The header built from the twelve values in key order: nx, ny and nz
      are computed in that order, and the first zero step raises. */
  function BuildHeader(v: seq<real>): (r: Result<GridHeader, Error>)
    requires |v| == |Keys|
    ensures r.Failure? <==> v[0] == 0.0 || v[1] == 0.0 || v[2] == 0.0
    ensures r.Success? ==>
              forall j :: 0 <= j < |Keys| ==> AttrValue(r.value, j) == v[j]
    ensures r.Success? ==> CountsAgree(r.value)
  {
    var nx :- CellCount(v[6], v[9], v[0], X);
    var ny :- CellCount(v[7], v[10], v[1], Y);
    var nz :- CellCount(v[8], v[11], v[2], Z);
    Success(GridHeader(v[0], v[1], v[2], v[3], v[4], v[5],
                       v[6], v[7], v[8], v[9], v[10], v[11], nx, ny, nz))
  }

  /** `read_header` as a function of the file: the header text, the twelve
      values, then the counts. */
  function ParseHeader(lines: seq<string>, parse: string -> Option<real>): Result<GridHeader, Error>
  {
    var text :- HeaderText(lines);
    var (v, o) := ExtractKeys(KeyResults(text, parse, Keys), |Keys|);
    if o.Fail? then Failure(o.error) else BuildHeader(v)
  }

  /** The three stages of `ParseHeader`, one case each. */
  lemma ParseHeaderCases(lines: seq<string>, parse: string -> Option<real>)
    ensures HeaderText(lines).Failure? ==> ParseHeader(lines, parse) == Failure(MissingDataMarker)
    ensures HeaderText(lines).Success? ==>
              var r := ExtractKeys(KeyResults(HeaderText(lines).value, parse, Keys), |Keys|);
              ParseHeader(lines, parse) == if r.1.Fail? then Failure(r.1.error) else BuildHeader(r.0)
  {
  }

  /** A header that parses holds, under each attribute, the converted token
      found after its key in the header text, and counts truncated from the
      extent over the step. */
  lemma ParseHeaderSuccess(lines: seq<string>, parse: string -> Option<real>)
    requires ParseHeader(lines, parse).Success?
    ensures HeaderText(lines).Success?
    ensures forall j :: 0 <= j < |Keys| ==>
              KeyResult(HeaderText(lines).value, parse, Keys[j]) == Success(AttrValue(ParseHeader(lines, parse).value, j))
    ensures CountsAgree(ParseHeader(lines, parse).value)
  {
    var rs := KeyResults(HeaderText(lines).value, parse, Keys);
    ExtractKeysSpec(rs, |Keys|);
    forall j | 0 <= j < |Keys|
      ensures KeyResult(HeaderText(lines).value, parse, Keys[j]) == Success(AttrValue(ParseHeader(lines, parse).value, j))
    {
      assert rs[j] == KeyResult(HeaderText(lines).value, parse, Keys[j]);
    }
  }

  /** Reading fails exactly when the marker is missing, some key is absent
      or malformed (there is no default), or some step is zero. */
  lemma ParseHeaderFails(lines: seq<string>, parse: string -> Option<real>)
    ensures ParseHeader(lines, parse).Failure? <==>
              HeaderText(lines).Failure?
              || (exists j :: 0 <= j < |Keys| && KeyResult(HeaderText(lines).value, parse, Keys[j]).Failure?)
              || (var v := ExtractKeys(KeyResults(HeaderText(lines).value, parse, Keys), |Keys|).0;
                  |v| == |Keys| && (v[0] == 0.0 || v[1] == 0.0 || v[2] == 0.0))
  {
    if HeaderText(lines).Success? {
      var rs := KeyResults(HeaderText(lines).value, parse, Keys);
      ExtractKeysSpec(rs, |Keys|);
      var r := ExtractKeys(rs, |Keys|);
      if r.1.Fail? {
        assert rs[|r.0|].Failure?;
      } else {
        forall j | 0 <= j < |Keys|
          ensures KeyResult(HeaderText(lines).value, parse, Keys[j]).Success?
        {
          assert rs[j].Success?;
        }
      }
    }
  }

  /** A key that is absent from the header text makes reading fail with the
      error of the first key that is absent or malformed. */
  lemma MissingKeyFails(lines: seq<string>, parse: string -> Option<real>, j: nat)
    requires j < |Keys| && HeaderText(lines).Success?
    requires SearchValue(HeaderText(lines).value, Keys[j]).None?
    ensures ParseHeader(lines, parse).Failure?
    ensures exists i :: 0 <= i <= j && KeyResult(HeaderText(lines).value, parse, Keys[i]).Failure?
                        && ParseHeader(lines, parse).error == KeyResult(HeaderText(lines).value, parse, Keys[i]).error
  {
    var rs := KeyResults(HeaderText(lines).value, parse, Keys);
    ExtractKeysSpec(rs, |Keys|);
    var r := ExtractKeys(rs, |Keys|);
    assert rs[j].Failure?;
    assert |r.0| <= j;
    assert rs[|r.0|] == KeyResult(HeaderText(lines).value, parse, Keys[|r.0|]);
  }
}
