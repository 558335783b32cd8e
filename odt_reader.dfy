/** `OOMMFODTRead` of oommf_tools.py: an object that reads the column names
    of an ODT table into a dictionary from name to column number, holds the
    numeric body, and returns one column by name. */
module OdtReader {
  import opened Wrappers
  import opened Errors
  import opened Text
  import opened OdtTokens

  // ---------------------------------------------------------------------------
  // The dictionary `columns[h] = i`, filled in table order

  /** The dictionary after the assignments for `names`: a repeated name
      keeps the number of its last occurrence. */
  function ColumnMap(names: seq<string>): map<string, nat>
  {
    if names == [] then map[]
    else ColumnMap(names[..|names| - 1])[names[|names| - 1] := |names| - 1]
  }

  /** The key order of that dictionary: a name enters when first assigned
      and keeps its place when assigned again. */
  function KeyOrder(names: seq<string>): seq<string>
  {
    if names == [] then []
    else
      var ks := KeyOrder(names[..|names| - 1]);
      if names[|names| - 1] in ks then ks else ks + [names[|names| - 1]]
  }

  /** The keys are exactly the names, and each maps to the position of its
      last occurrence. */
  lemma {:induction false} ColumnMapSpec(names: seq<string>)
    ensures forall k :: k in ColumnMap(names) <==> k in names
    ensures forall k :: k in ColumnMap(names) ==>
              ColumnMap(names)[k] < |names| && names[ColumnMap(names)[k]] == k
              && forall j :: ColumnMap(names)[k] < j < |names| ==> names[j] != k
  {
    if names != [] {
      var pre := names[..|names| - 1];
      ColumnMapSpec(pre);
      assert names == pre + [names[|names| - 1]];
    }
  }

  /** The key order lists every name once, and in the order of first
      occurrence: a key listed before another occurs before every
      occurrence of that other. */
  lemma {:induction false} KeyOrderSpec(names: seq<string>)
    ensures forall k :: k in KeyOrder(names) <==> k in names
    ensures forall a, b :: 0 <= a < b < |KeyOrder(names)| ==> KeyOrder(names)[a] != KeyOrder(names)[b]
    ensures forall a, b, j :: 0 <= a < b < |KeyOrder(names)| && 0 <= j < |names| && names[j] == KeyOrder(names)[b] ==>
              exists i :: 0 <= i < j && names[i] == KeyOrder(names)[a]
  {
    if names != [] {
      var n := |names| - 1;
      var pre := names[..n];
      KeyOrderSpec(pre);
      assert names == pre + [names[n]];
      var ks, ks0 := KeyOrder(names), KeyOrder(pre);
      forall a, b, j | 0 <= a < b < |KeyOrder(names)| && 0 <= j < |names| && names[j] == KeyOrder(names)[b]
        ensures exists i :: 0 <= i < j && names[i] == KeyOrder(names)[a]
      {
        assert ks[a] == ks0[a] && ks[a] in pre;
        if j < n {
          assert pre[j] == ks[b];
          assert b < |ks0|;
          var i :| 0 <= i < j && pre[i] == ks0[a];
          assert names[i] == ks[a];
        } else if b < |ks0| {
          assert ks[b] in pre;
          var j' :| 0 <= j' < n && pre[j'] == ks0[b];
          var i :| 0 <= i < j' && pre[i] == ks0[a];
          assert names[i] == ks[a];
        } else {
          var i :| 0 <= i < n && pre[i] == ks0[a];
          assert names[i] == ks[a];
        }
      }
    }
  }

  /** One more assignment `columns[names[i]] = i`. */
  lemma ColumnStep(names: seq<string>, i: nat)
    requires i < |names|
    ensures ColumnMap(names[..i + 1]) == ColumnMap(names[..i])[names[i] := i]
    ensures KeyOrder(names[..i + 1])
            == if names[i] in ColumnMap(names[..i]) then KeyOrder(names[..i]) else KeyOrder(names[..i]) + [names[i]]
  {
    assert names[..i + 1][..i] == names[..i];
    SameKeys(names[..i]);
  }

  /** The dictionary's keys and its key order hold the same names. */
  lemma SameKeys(names: seq<string>)
    ensures forall k :: k in ColumnMap(names) <==> k in KeyOrder(names)
  {
    ColumnMapSpec(names);
    KeyOrderSpec(names);
  }

  // ---------------------------------------------------------------------------
  // Lookup by name

  /** The text of the exception for an unknown column name. */
  function InvalidColumnMessage(name: string, keys: seq<string>): string
  {
    "Invalid column name: " + name + ". \n" + "Options:\n" + Join("\n", keys)
  }

  /** The message names the requested column and lists every known one. */
  lemma InvalidColumnMessageNames(name: string, keys: seq<string>)
    ensures IsInfix(name, InvalidColumnMessage(name, keys))
    ensures forall k :: 0 <= k < |keys| ==> IsInfix(keys[k], InvalidColumnMessage(name, keys))
  {
    var head := "Invalid column name: " + name + ". \n" + "Options:\n";
    InfixOfConcat("Invalid column name: ", name, ". \n" + "Options:\n" + Join("\n", keys));
    assert InvalidColumnMessage(name, keys)
        == "Invalid column name: " + name + (". \n" + "Options:\n" + Join("\n", keys));
    forall k | 0 <= k < |keys|
      ensures IsInfix(keys[k], InvalidColumnMessage(name, keys))
    {
      JoinContains("\n", keys, k);
      var i: nat :| OccursAt(Join("\n", keys), i, keys[k]);
      var m := InvalidColumnMessage(name, keys);
      assert m == head + Join("\n", keys);
      assert m[|head| + i..|head| + i + |keys[k]|] == Join("\n", keys)[i..i + |keys[k]|];
      assert OccursAt(m, |head| + i, keys[k]);
    }
  }

  /** Column `c` of the numeric body: entry `c` of every row. */
  function Column(data: seq<seq<real>>, c: nat): (r: Result<seq<real>, Error>)
    ensures r.Failure? <==> exists i :: 0 <= i < |data| && |data[i]| <= c
    ensures r.Failure? ==> r.error == ColumnOutOfRange(c)
    ensures r.Success? ==> |r.value| == |data| && forall i :: 0 <= i < |data| ==> r.value[i] == data[i][c]
  {
    if exists i :: 0 <= i < |data| && |data[i]| <= c then Failure(ColumnOutOfRange(c))
    else Success(seq(|data|, i requires 0 <= i < |data| => data[i][c]))
  }

  class OommfOdtRead {
    /** The lines of the input file, as `readline()` returns them. */
    var inputFile: seq<string>
    /** Column name to column number. */
    var columns: map<string, nat>
    /** The key order of `columns`, the order in which its keys print. */
    var columnOrder: seq<string>
    /** The numeric body of the table, one sequence per row. */
    var data: seq<seq<real>>

    /** `columns` and its key order hold the same names, as the keys of one
        Python dict and their iteration order do. */
    ghost predicate Valid()
      reads this
    {
      forall k :: k in columns <==> k in columnOrder
    }

    /** `OOMMFODTRead(input_file)`: the column names are read at once; the
        numeric body is the table `np.loadtxt` returns, passed in. */
    constructor (inputFile: seq<string>, data: seq<seq<real>>)
      ensures this.inputFile == inputFile && this.data == data
      ensures columns == ColumnMap(Names(inputFile)) && columnOrder == KeyOrder(Names(inputFile))
      ensures Valid()
    {
      this.inputFile := inputFile;
      this.data := data;
      columns, columnOrder := map[], [];
      new;
      ReadHeader();
    }

    /** `read_header`: the fourth line with its prefix cut off, the names
        found in it, and the dictionary filled in table order. */
    method ReadHeader()
      modifies this`columns, this`columnOrder
      ensures columns == ColumnMap(Names(inputFile))
      ensures columnOrder == KeyOrder(Names(inputFile))
      ensures Valid()
    {
      var l := "";
      for i := 0 to 4
        invariant i > 0 ==> l == ReadLine(inputFile, i - 1)
      {
        l := ReadLine(inputFile, i);
      }
      l := if |l| <= 11 then "" else l[11..];
      assert l == ColumnLine(inputFile);
      var header := FindAll(l);
      ghost var names := Names(inputFile);
      assert |names| == |header| && forall i :: 0 <= i < |header| ==> names[i] == CleanName(header[i]);
      columns, columnOrder := map[], [];
      for i := 0 to |header|
        invariant columns == ColumnMap(names[..i])
        invariant columnOrder == KeyOrder(names[..i])
      {
        var h := CleanName(header[i]);
        ColumnStep(names, i);
        if h !in columns {
          columnOrder := columnOrder + [h];
        }
        columns := columns[h := i];
      }
      assert names[..|header|] == names;
      SameKeys(names);
    }

    /** `__getitem__`: the column of that name. An unknown name raises with
        a message listing the known ones; a column number beyond the body's
        width is an index error. */
    method GetItem(name: string) returns (r: Result<seq<real>, Error>)
      requires Valid()
      ensures name !in columns ==> r == Failure(InvalidColumn(name, InvalidColumnMessage(name, columnOrder)))
      ensures name !in columns ==>
                IsInfix(name, r.error.message) && forall k :: k in columns ==> IsInfix(k, r.error.message)
      ensures name in columns ==> r == Column(data, columns[name])
    {
      if name !in columns {
        InvalidColumnMessageNames(name, columnOrder);
        forall k | k in columns
          ensures IsInfix(k, InvalidColumnMessage(name, columnOrder))
        {
          var j :| 0 <= j < |columnOrder| && columnOrder[j] == k;
        }
        return Failure(InvalidColumn(name, InvalidColumnMessage(name, columnOrder)));
      }
      r := Column(data, columns[name]);
    }
  }

  /** A name of the table is found, and its column is the position of its
      last occurrence among the names; a name the table does not declare is
      refused with a message that lists every declared one. */
  lemma Lookup(names: seq<string>, name: string)
    ensures name in names ==> name in ColumnMap(names) && ColumnMap(names)[name] < |names|
                              && names[ColumnMap(names)[name]] == name
                              && forall j :: ColumnMap(names)[name] < j < |names| ==> names[j] != name
    ensures name !in names ==> name !in ColumnMap(names)
                               && forall k :: k in names ==> IsInfix(k, InvalidColumnMessage(name, KeyOrder(names)))
  {
    ColumnMapSpec(names);
    KeyOrderSpec(names);
    var ks := KeyOrder(names);
    InvalidColumnMessageNames(name, ks);
    forall k | k in names
      ensures IsInfix(k, InvalidColumnMessage(name, ks))
    {
      var a :| 0 <= a < |ks| && ks[a] == k;
    }
  }
}
