# OOMMF output readers — a verified model

This project models the core of `oommf_tools.py`, a small helper library for
reading the text output of the OOMMF micromagnetic simulator:

- `OOMMFDataRead` reads the header of an OMF regular-grid file. It collects
  the header text up to the `# Begin: Data Text` line and extracts twelve
  numeric values with a regular-expression search (`xstepsize` … `zmax`). It
  computes the cell counts `nx`, `ny`, `nz`, and rebuilds the coordinate
  lattice from the header alone, with x varying fastest and z slowest.
- `OOMMFODTRead` reads the column names of an ODT table from the fourth line
  of the file. It tokenises them with `re.findall`, builds the dictionary
  from name to column number, and returns one column of the numeric body by
  name. An unknown name raises an error that lists every valid name.
- `generate_colours` turns magnetisation vectors into HLS colours. The hue
  is the in-plane angle wrapped into [0, 2π), the lightness is
  `0.5 * (vz + 1)` and the saturation is one. The colours are converted to
  RGB unless `colour_model='hls'` is given.

Modules:

| file | module | contents |
|---|---|---|
| `wrappers.dfy` | `Wrappers` | `Option`, `Result`, `Outcome` |
| `errors.dfy` | `Errors` | the exceptions the code raises, as one datatype |
| `text.dfy` | `Text` | `startswith`, `strip`, `join`, `in` on strings |
| `omf_header.dfy` | `OmfHeader` | the header as pure functions: header text, key search, cell counts |
| `lattice.dfy` | `Lattice` | `tile`/`repeat`, the lattice and its index law |
| `omf_reader.dfy` | `OmfReader` | the class `OommfDataRead`: the header loops and `set_coordinates`, proved against the two modules above |
| `odt_tokens.dfy` | `OdtTokens` | the column pattern, the `re.findall` scan, name cleaning |
| `odt_reader.dfy` | `OdtReader` | the class `OommfOdtRead`: the dictionary loop and lookup |
| `colours.dfy` | `Colours` | `generate_colours`, `convert_to_RGB` |

Modelling conventions:

- A file is the sequence of its lines, each with its newline, as `readline()`
  returns them. Reading past the end yields "".
- Numbers are Dafny `real`s, so floating-point rounding is not modelled.
- `float(token)` is the parameter `parse`, which answers `None` where the
  conversion raises.
- `np.arctan2` and `colorsys.hls_to_rgb` are the parameters `atan2` and
  `hlsToRgb`.
- `np.loadtxt` is replaced by the table body, passed in as a sequence of rows.
- Every exception is a `Failure`/`Fail` carrying an `Errors.Error`.

## Model

| member | source | states |
|---|---|---|
| OmfHeader.FindMarker | oommf_tools.py:57-61 | the first line at or after `i` that starts with `# Begin: Data Text`; no earlier line does; none when no line does |
| OmfHeader.HeaderText | oommf_tools.py:57-61 | the header text is the concatenation of exactly the lines before the first marker line; it fails with MissingDataMarker exactly when no line starts with the marker |
| OmfHeader.HeaderLoopAgrees | oommf_tools.py:57-61 | where a marker line exists, the loop as written returns the header text after one append per header line |
| OmfHeader.HeaderLoopNeverExits | oommf_tools.py:57-61 | on a file with no marker line, the loop as written does not exit for any number of iterations |
| OmfHeader.TruncatedFileHangs | oommf_tools.py:57-61 | on a text OMF file cut off after its header, before any data section, the loop as written never exits, while the header text is reported missing |
| OmfHeader.NumRunLen | oommf_tools.py:71 | the greedy `[0-9\-\.e]+`: the longest run of numeric characters at a position |
| OmfHeader.FindValue | oommf_tools.py:71 | the leftmost position from `p` where `KEY: ` ends and a numeric character follows (the lookbehind search) |
| OmfHeader.SearchValueSpec | oommf_tools.py:71-72 | the search finds nothing exactly when no `KEY: ` is followed by a numeric character; otherwise the token is the non-empty maximal numeric run at the leftmost such place |
| OmfHeader.ExtractKeys | oommf_tools.py:70-73 | the loop over the keys passes exactly when it stores a value for every key, and never stores more values than keys |
| OmfHeader.ExtractKeysSpec | oommf_tools.py:70-73 | each stored value is its own key's converted token; a failure carries the error of the first key that is absent or malformed |
| OmfHeader.ExtractKeysStops | oommf_tools.py:70-73 | after the first failure no later key is looked at |
| OmfHeader.Trunc | oommf_tools.py:76-78 | `int()` truncates toward zero: below a non-negative argument by less than one, above a negative one by less than one |
| OmfHeader.CellCount | oommf_tools.py:76-78 | a zero step raises (ZeroStep for that axis); otherwise the count is the extent over the step, truncated |
| OmfHeader.CellCountExact | oommf_tools.py:76-78 | in exact arithmetic, an extent of exactly `n` steps gives the count `n` (see "## Left out" for doubles) |
| OmfHeader.BuildHeader | oommf_tools.py:63-78 | building fails exactly when a step is zero; otherwise each attribute holds its value in key order and the counts agree with the steps and extents |
| OmfHeader.ParseHeaderSuccess | oommf_tools.py:63-78 | a header that parses holds under each attribute the value of its key, with counts truncated from extent over step |
| OmfHeader.ParseHeaderFails | oommf_tools.py:57-78 | reading fails exactly when the marker is missing, some key is absent or malformed (there is no default), or some step is zero |
| OmfHeader.MissingKeyFails | oommf_tools.py:70-73 | a key absent from the header makes reading fail, with the error of the first failing key at or before it |
| Lattice.TileLength | oommf_tools.py:102-103 | `np.tile(s, k)` has `len(s) * k` entries |
| Lattice.TileAt | oommf_tools.py:102-103 | entry `i` of `np.tile(s, k)` is entry `i mod len(s)` of `s` |
| Lattice.RepeatLength | oommf_tools.py:103-104 | `np.repeat(s, k)` has `len(s) * k` entries |
| Lattice.RepeatAt | oommf_tools.py:103-104 | entry `i` of `np.repeat(s, k)` is entry `i div k` of `s` |
| Lattice.TiledX | oommf_tools.py:95-102 | the x column has one entry per site, and entry `i` scaled by 1e9 is the x of lattice point `i`, whose x index is `i mod nx` |
| Lattice.TiledY | oommf_tools.py:97-103 | the y column: entry `i` gives the y of lattice point `i`, whose y index is `(i div nx) mod ny` |
| Lattice.TiledZ | oommf_tools.py:99-104 | the z column: entry `i` gives the z of lattice point `i`, whose z index is `i div (nx*ny)` |
| Lattice.TiledLengths | oommf_tools.py:102-104 | the three columns all have `nx*ny*nz` entries |
| Lattice.StackedColumns | oommf_tools.py:102-109 | the stacked columns scaled by 1e9 are the lattice: `nx*ny*nz` points, point `i` at `1e9*(xbase + (i mod nx)*dx, ybase + ((i div nx) mod ny)*dy, zbase + (i div (nx*ny))*dz)` |
| Lattice.LatticeIndex | oommf_tools.py:102-104 | every grid site `(ix, iy, iz)` is the lattice entry `ix + nx*(iy + ny*iz)` and decomposes back into that site |
| Lattice.SiteOfIndex | oommf_tools.py:102-104 | every index below `nx*ny*nz` decomposes into a grid site whose index is the same index again; with LatticeIndex, each site appears exactly once |
| Lattice.SiteIndexStep | oommf_tools.py:102-104 | within a row the next entry has the next x index and the same y and z indices |
| Lattice.LatticeStepX | oommf_tools.py:102-109 | within a row the next point moves by `1e9*dx` in x only: x varies fastest |
| Lattice.PositionStepX | oommf_tools.py:95-109 | one x index further moves the position by `1e9*dx` in x and leaves y and z unchanged |
| OmfReader.Scale | oommf_tools.py:95-99 | `a *= k` in place: every entry is multiplied by `k` |
| OmfReader.Shift | oommf_tools.py:96-100 | `a += b` in place: every entry is increased by `b` |
| OmfReader.AxisArray | oommf_tools.py:91-100 | a fresh array holding `base + i*step` for `i` below `n` |
| OmfReader.BuildLattice | oommf_tools.py:91-109 | the arrays tiled, repeated, stacked and scaled form the lattice of the header |
| OmfReader.Open | oommf_tools.py:46-49 | constructing the reader succeeds exactly when the header parses, and then holds that header; otherwise the error of `read_header` |
| OmfReader.OommfDataRead.SetAttr | oommf_tools.py:73 | `setattr` stores the value under the attribute of key `j` and changes no other attribute |
| OmfReader.OommfDataRead.CollectHeader | oommf_tools.py:57-61 | the `while` loop, which also stops at the end of the file, returns the header text, or MissingDataMarker where no line starts with the marker |
| OmfReader.OommfDataRead.StoreValues | oommf_tools.py:70-73 | the `for` loop's outcome is that of the key loop; the attributes hold the stored values, and keys after a failure keep their old values; a failure is MissingKey or MalformedNumber, and the counts are untouched |
| OmfReader.OommfDataRead.ComputeCounts | oommf_tools.py:76-78 | the counts are computed in axis order; the first zero step raises for its axis and leaves the later counts unchanged |
| OmfReader.OommfDataRead.LoadValues | oommf_tools.py:63-78 | after the header text: the outcome is the key loop's failure, else that of `BuildHeader` of the stored values, and the header then equals it; the attributes and the counts keep the same partial state on failure as `read_header` |
| OmfReader.OommfDataRead.ReadHeader | oommf_tools.py:51-80 | the outcome and the header the object holds agree with `ParseHeader`; after a failure the values stored before it stay; a marker or key failure, or a zero x step, leaves `nx`, `ny`, `nz` unchanged; a zero y step has computed `nx` only, a zero z step `nx` and `ny` |
| OmfReader.OommfDataRead.SetCoordinates | oommf_tools.py:90-112 | `coordinates` becomes the lattice of the header and `x`, `y`, `z` its columns; a negative count is an error and changes nothing |
| OmfReader.OommfDataRead.HeaderMatches | oommf_tools.py:63-78 | the object's attributes and counts are the header built from the stored values |
| OdtTokens.NameRun | oommf_tools.py:150 | the greedy `[A-Za-z\s\:}]+`: the longest run of name characters at a position |
| OdtTokens.Backtrack | oommf_tools.py:150 | backtracking picks the largest end within the run at which the lookahead `Oxs`, `{Oxs` or newline holds |
| OdtTokens.MatchEnd | oommf_tools.py:150 | a match at `p` ends after at least `Oxs_` and one more character, and within the line |
| OdtTokens.MatchEndSpec | oommf_tools.py:150 | the pattern matches at `p` exactly when some `Oxs_` + name characters + lookahead match starts there, and then the longest one is taken |
| OdtTokens.ScanMatch | oommf_tools.py:150 | every span `findall` reports is the match at its start |
| OdtTokens.ScanOrdered | oommf_tools.py:150 | the reported spans come left to right without overlapping |
| OdtTokens.ScanComplete | oommf_tools.py:150 | every position where a match starts lies inside a reported span |
| OdtTokens.FindAllSpec | oommf_tools.py:150 | `re.findall` yields, in order and without overlap, the longest match at each start it takes, and misses no match except one overlapping a taken one |
| OdtTokens.CleanNameSpec | oommf_tools.py:154-155 | `strip()` then `strip('}')` cuts only whitespace and closing braces from the ends, and the name neither starts nor ends with `}` |
| Text.Strip | oommf_tools.py:154-155 | `str.strip(cs)` never lengthens the string, and the result neither starts nor ends with a character of `cs` |
| Text.StripBounds | oommf_tools.py:154-155 | the stripped string is an infix `s[a..b]` of the input with only characters of `cs` outside it |
| Text.StripTwice | oommf_tools.py:154-155 | stripping twice leaves an infix with only characters of either set outside it |
| OdtReader.ColumnMapSpec | oommf_tools.py:152-156 | the dictionary's keys are exactly the cleaned names, and a repeated name maps to its last position |
| OdtReader.KeyOrderSpec | oommf_tools.py:152-156 | the key order lists each name once, in the order of first occurrence |
| OdtReader.ColumnStep | oommf_tools.py:156 | one assignment `columns[h] = i` updates the map, and appends `h` to the key order only when it is new |
| OdtReader.SameKeys | oommf_tools.py:152-156 | the dictionary and its key order hold the same names |
| OdtReader.OommfOdtRead.ReadHeader | oommf_tools.py:137-156 | the fourth line after its first 11 characters is tokenised; the dictionary and its key order are those of the cleaned names in match order, and hold the same names |
| OdtReader.OommfOdtRead.constructor | oommf_tools.py:130-135 | the reader holds the file, the table body, and the dictionary read from the header |
| OdtReader.InvalidColumnMessageNames | oommf_tools.py:164-166 | the error message contains the requested name and every valid column name |
| OdtReader.Column | oommf_tools.py:168 | `data[:, c]` is entry `c` of every row, or an index error when a row is too short |
| OdtReader.OommfOdtRead.GetItem | oommf_tools.py:163-168 | an unknown name raises InvalidColumn with the message listing the keys in dictionary order, so the message names the requested name and every key of the dictionary; a known one returns its column |
| OdtReader.Lookup | oommf_tools.py:152-168 | a declared name is found at the position of its last occurrence; an undeclared one is refused with a message naming every declared one |
| Text.JoinContains | oommf_tools.py:165 | every element of `'\n'.join(keys)` appears in the joined text |
| Colours.WrapHueRange | oommf_tools.py:20-23 | for an `arctan2` angle in [-π, π] the hue lies in [0, 2π) and is the angle or the angle plus 2π |
| Colours.WrapHueUnique | oommf_tools.py:20-23 | the hue is the only angle in [0, 2π) a whole number of turns from the input angle |
| Colours.LightnessRange | oommf_tools.py:24 | the lightness lies in [0, 1] exactly when `vz` lies in [-1, 1], and `vz = 2*l - 1` |
| Colours.GenerateColours | oommf_tools.py:15-34 | the model defaults to `rgb`; it fails exactly for a model other than `rgb`/`hls` (with the source's message) or for `rgb` on an empty field; otherwise it gives one colour per vector |
| Colours.HlsColours | oommf_tools.py:19-31 | with `hls`, each colour has hue in [0, 2π) at most one turn from `arctan2`, lightness recovering `vz`, and saturation one |
| Colours.RgbColours | oommf_tools.py:9-28 | with the default model `rgb`, each colour is `hls_to_rgb` of the matching hls colour with the hue as a fraction of a turn in [0, 1) |

## Left out

- `read_m` is not modelled. It is floating-point `sqrt` and division over the output of `np.loadtxt`.
- File I/O is not modelled. Files are the sequence of their lines; `open`/`close` do nothing observable here.
- `float(...)` is the parameter `parse`, so which strings convert is not modelled.
- A value such as `1e+09` is a MalformedNumber case: `+` is not in the numeric class, so the search takes the token `1e`, and `float('1e')` raises. The model keeps the class exactly as written and does not add `+`.
- Floating-point rounding is not modelled. All arithmetic is over reals.
- OmfHeader.CellCountExact: holds over reals only. In doubles, `int((xmax - xmin) / xstepsize)` can come out one short of a whole number of steps. For example, `xmin: 0`, `xmax: 3e-07` and `xstepsize: 1e-09` give the quotient 299.99999999999994, so `nx` is 299 and the lattice has one x column too few.
- The float hue `h + 2π` of a tiny negative angle can round to exactly 2π. Over reals the hue stays below 2π.
- `np.arctan2` is a parameter. The colour lemmas assume its documented range [-π, π].
- `colorsys.hls_to_rgb` is a parameter. Its formulas are not modelled.
- `np.ones_like` of an integer-typed field gives an integer `hls` array that truncates the hue and lightness. Fields are real here.
- OmfReader.OommfDataRead.SetCoordinates: for a negative count, numpy raises from `tile` or `repeat` in most cases, but returns an empty array when the negative count multiplies an empty axis. The model reports every negative count as NegativeCellCount, naming the first negative axis.
- OmfReader.OommfDataRead.SetCoordinates: `x`, `y` and `z` are numpy views into `coordinates`, so writing through one changes the other. The model stores copies, and aliasing is not modelled.
- `np.loadtxt` is replaced by the table body, passed in as rows of equal width. Its one-dimensional result for a single-row, single-column or empty body is not modelled. In the source, every lookup on such a body raises IndexError, because `loadtxt` squeezes the length-1 axis away. The model returns the column instead: OdtReader.Column and OdtReader.OommfOdtRead.GetItem assume a two-dimensional body.
- OdtReader.OommfOdtRead.ReadHeader: a file with fewer than four lines gives an empty column line and no columns, because `readline()` returns "" at the end of the file. The code raises nothing there, and the model follows the code.
- The literal example line `{Oxs_CGEvolve::Total energy}  {Oxs_RungeKuttaEvolve::Simulation time}` is not evaluated in a lemma. FindAllSpec, CleanNameSpec and ColumnMapSpec state the behaviour for every line.
- Files are modelled as already decoded text lines. A file opened in text mode that does not decode raises before any line is compared; for example, a binary OMF data section is invalid UTF-8 in its first bytes. Decoding errors are not modelled.
- Colours.GenerateColours: `np.apply_along_axis` raises on a field with no rows. The model reports this as EmptyField, without the numpy message.

## Findings

| source | as written | input that shows it | evidently intended | confidence | as-written member | corrected member |
|---|---|---|---|---|---|---|
| oommf_tools.py:57-61 | the header loop stops only at a line starting with `# Begin: Data Text`; at the end of the file `readline()` returns "", which never does, so the loop appends "" forever | any text file with no such line, e.g. an empty file, or an OMF text file cut off after `# End: Header` before its data section | reading stops at the end of the file and reports that the data marker is missing | not executed | OmfHeader.HeaderLoopAsWritten (OmfHeader.HeaderLoopNeverExits, OmfHeader.TruncatedFileHangs) | OmfHeader.HeaderText (OmfHeader.HeaderLoopAgrees, OmfReader.OommfDataRead.CollectHeader) |
