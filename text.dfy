/** The few string operations the readers rely on, as Python defines them:
    `str.startswith`, `str.isspace`, `str.strip`, `str.join`, and the
    concatenation of the lines a loop appends to a string. */
module Text {

  /** `s.startswith(prefix)` */
  predicate StartsWith(s: string, prefix: string)
  {
    |prefix| <= |s| && s[..|prefix|] == prefix
  }

  /** `lit` occurs in `s` starting at position `p` */
  predicate OccursAt(s: string, p: nat, lit: string)
  {
    p + |lit| <= |s| && s[p..p + |lit|] == lit
  }

  /** `a` occurs somewhere in `b` (Python's `a in b` on strings) */
  ghost predicate IsInfix(a: string, b: string)
  {
    exists i: nat :: OccursAt(b, i, a)
  }

  /** The characters for which `str.isspace()` holds: the ASCII controls
      tab to carriage return, the four separators 0x1C to 0x1F, space,
      and the Unicode space and line/paragraph separators. */
  const Whitespace: set<char> :=
    {'\t', '\n', '\U{000B}', '\U{000C}', '\r',
     '\U{001C}', '\U{001D}', '\U{001E}', '\U{001F}', ' ',
     '\U{0085}', '\U{00A0}', '\U{1680}',
     '\U{2000}', '\U{2001}', '\U{2002}', '\U{2003}', '\U{2004}', '\U{2005}',
     '\U{2006}', '\U{2007}', '\U{2008}', '\U{2009}', '\U{200A}',
     '\U{2028}', '\U{2029}', '\U{202F}', '\U{205F}', '\U{3000}'}

  /** Number of leading characters of `s` that lie in `cs`. */
  function LeadLen(s: string, cs: set<char>): (n: nat)
    ensures n <= |s|
    ensures forall i :: 0 <= i < n ==> s[i] in cs
    ensures n == |s| || s[n] !in cs
  {
    if s == [] || s[0] !in cs then 0 else 1 + LeadLen(s[1..], cs)
  }

  /** Number of trailing characters of `s` that lie in `cs`. */
  function TrailLen(s: string, cs: set<char>): (n: nat)
    ensures n <= |s|
    ensures forall i :: |s| - n <= i < |s| ==> s[i] in cs
    ensures n == |s| || s[|s| - 1 - n] !in cs
  {
    if s == [] || s[|s| - 1] !in cs then 0 else 1 + TrailLen(s[..|s| - 1], cs)
  }

  /** `s.strip(cs)`: the longest run of characters in `cs` is removed from
      each end; the result is the infix of `s` that neither starts nor ends
      with a character of `cs`. */
  function Strip(s: string, cs: set<char>): (r: string)
    ensures |r| <= |s|
    ensures r != [] ==> r[0] !in cs && r[|r| - 1] !in cs
  {
    var a := LeadLen(s, cs);
    if a == |s| then
      assert s[|s|..|s|] == [];
      []
    else
      var t := TrailLen(s, cs);
      assert s[a] !in cs;
      assert t < |s| - a;
      s[a..|s| - t]
  }

  /** Where `Strip` cuts: the result is `s[a..b]`. */
  lemma StripBounds(s: string, cs: set<char>) returns (a: nat, b: nat)
    ensures a <= b <= |s| && Strip(s, cs) == s[a..b]
    ensures forall i :: 0 <= i < a ==> s[i] in cs
    ensures forall i :: b <= i < |s| ==> s[i] in cs
  {
    a := LeadLen(s, cs);
    if a == |s| {
      b := |s|;
    } else {
      b := |s| - TrailLen(s, cs);
    }
  }

  /** A cut `[c..d]` of the cut `s[a..b]` is the cut `s[a + c..a + d]`,
      and what both cuts drop lies in `cs` or `ds`. */
  lemma NestedCut(s: string, a: nat, b: nat, c: nat, d: nat, cs: set<char>, ds: set<char>)
    requires a <= b <= |s| && c <= d <= b - a
    requires forall i :: 0 <= i < a ==> s[i] in cs
    requires forall i :: b <= i < |s| ==> s[i] in cs
    requires forall i :: 0 <= i < c ==> s[a..b][i] in ds
    requires forall i :: d <= i < b - a ==> s[a..b][i] in ds
    ensures s[a..b][c..d] == s[a + c..a + d]
    ensures forall i :: 0 <= i < a + c ==> s[i] in cs || s[i] in ds
    ensures forall i :: a + d <= i < |s| ==> s[i] in cs || s[i] in ds
  {
    assert forall i :: 0 <= i < d - c ==> s[a..b][c..d][i] == s[a + c..a + d][i];
    forall i | a <= i < a + c
      ensures s[i] in ds
    {
      assert s[i] == s[a..b][i - a];
    }
    forall i | a + d <= i < b
      ensures s[i] in ds
    {
      assert s[i] == s[a..b][i - a];
    }
  }

  /** Stripping with `cs` and then with `ds` leaves an infix of `s` with
      only characters of `cs` or `ds` outside it. */
  lemma StripTwice(s: string, cs: set<char>, ds: set<char>) returns (lo: nat, hi: nat)
    ensures lo <= hi <= |s| && Strip(Strip(s, cs), ds) == s[lo..hi]
    ensures forall i :: 0 <= i < lo ==> s[i] in cs || s[i] in ds
    ensures forall i :: hi <= i < |s| ==> s[i] in cs || s[i] in ds
  {
    var a, b := StripBounds(s, cs);
    var t := s[a..b];
    var c, d := StripBounds(t, ds);
    NestedCut(s, a, b, c, d, cs, ds);
    lo, hi := a + c, a + d;
  }

  /** `readline()` on a file, given as its lines, positioned before line
      `i`: that line with its newline, or "" past the end. */
  function ReadLine(lines: seq<string>, i: nat): string
  {
    if i < |lines| then lines[i] else ""
  }

  /** The text a loop builds by appending each line in turn. */
  function Concat(lines: seq<string>): string
  {
    if lines == [] then "" else Concat(lines[..|lines| - 1]) + lines[|lines| - 1]
  }

  /** `sep.join(xs)` */
  function Join(sep: string, xs: seq<string>): string
  {
    if xs == [] then ""
    else if |xs| == 1 then xs[0]
    else xs[0] + sep + Join(sep, xs[1..])
  }

  /** Every joined element appears in the joined string. */
  lemma {:induction false} JoinContains(sep: string, xs: seq<string>, k: nat)
    requires k < |xs|
    ensures IsInfix(xs[k], Join(sep, xs))
  {
    var j := Join(sep, xs);
    if |xs| == 1 || k == 0 {
      assert OccursAt(j, 0, xs[0]);
    } else {
      JoinContains(sep, xs[1..], k - 1);
      var rest := Join(sep, xs[1..]);
      var i: nat :| OccursAt(rest, i, xs[k]);
      var off := |xs[0]| + |sep|;
      assert j == xs[0] + sep + rest;
      assert j[off + i..off + i + |xs[k]|] == rest[i..i + |xs[k]|];
      assert OccursAt(j, off + i, xs[k]);
    }
  }

  /** A string contains itself and anything it is built around. */
  lemma InfixOfConcat(a: string, b: string, c: string)
    ensures IsInfix(b, a + b + c)
  {
    assert OccursAt(a + b + c, |a|, b);
  }
}
