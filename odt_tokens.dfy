/** The column names of an ODT file as `OOMMFODTRead.read_header` splits
    them out of the fourth line: the `# Columns:` prefix cut off, the names
    found by `re.findall` with the pattern
    `Oxs_[A-Za-z\s\:}]+(?=Oxs|{Oxs|\n)`, and each found name stripped of
    surrounding whitespace and then of closing braces. */
module OdtTokens {
  import opened Wrappers
  import opened Text

  /** The character class `[A-Za-z\s\:}]`: ASCII letters, whitespace in
      the sense of `str.isspace`, colon and closing brace. */
  predicate InNameClass(c: char)
  {
    ('A' <= c <= 'Z') || ('a' <= c <= 'z') || c in Whitespace || c == ':' || c == '}'
  }

  /** The lookahead `(?=Oxs|{Oxs|\n)` holds at position `q`. */
  predicate LookaheadAt(s: string, q: nat)
  {
    OccursAt(s, q, "Oxs") || OccursAt(s, q, "{Oxs") || OccursAt(s, q, "\n")
  }

  /** `s[p..q]` is a match of the whole pattern: the literal `Oxs_`, at
      least one class character, and the lookahead holds at `q`. */
  predicate IsMatch(s: string, p: nat, q: nat)
  {
    OccursAt(s, p, "Oxs_") && p + 4 < q <= |s|
    && (forall k :: p + 4 <= k < q ==> InNameClass(s[k]))
    && LookaheadAt(s, q)
  }

  /** The greedy `+`: the length of the longest run of class characters
      starting at `p`. */
  function NameRun(s: string, p: nat): (n: nat)
    requires p <= |s|
    ensures p + n <= |s|
    ensures forall k :: p <= k < p + n ==> InNameClass(s[k])
    ensures p + n == |s| || !InNameClass(s[p + n])
    decreases |s| - p
  {
    if p == |s| || !InNameClass(s[p]) then 0 else 1 + NameRun(s, p + 1)
  }

  /** Backtracking of the greedy run: the end positions `q`, `q - 1`, ...
      above `lo` are tried in turn until the lookahead holds. */
  function Backtrack(s: string, lo: nat, q: nat): (r: Option<nat>)
    requires lo <= q
    ensures r.Some? ==> lo < r.value <= q && LookaheadAt(s, r.value)
                        && forall k :: r.value < k <= q ==> !LookaheadAt(s, k)
    ensures r.None? ==> forall k :: lo < k <= q ==> !LookaheadAt(s, k)
    decreases q
  {
    if q == lo then None
    else if LookaheadAt(s, q) then Some(q)
    else Backtrack(s, lo, q - 1)
  }

  /** The end of the match that starts at `p`, if the pattern matches there. */
  function MatchEnd(s: string, p: nat): (r: Option<nat>)
    ensures r.Some? ==> p + 4 < r.value <= |s|
  {
    if !OccursAt(s, p, "Oxs_") then None
    else Backtrack(s, p + 4, p + 4 + NameRun(s, p + 4))
  }

  /** The pattern matches at `p` exactly when some `s[p..q]` is a match,
      and then the match taken is the longest one. */
  lemma MatchEndSpec(s: string, p: nat)
    ensures MatchEnd(s, p).None? <==> forall q: nat :: !IsMatch(s, p, q)
    ensures MatchEnd(s, p).Some? ==>
              IsMatch(s, p, MatchEnd(s, p).value)
              && forall q: nat :: IsMatch(s, p, q) ==> q <= MatchEnd(s, p).value
  {
    if OccursAt(s, p, "Oxs_") {
      var e := p + 4 + NameRun(s, p + 4);
      forall q: nat | IsMatch(s, p, q)
        ensures q <= e
      {
      }
      if MatchEnd(s, p).Some? {
        assert IsMatch(s, p, MatchEnd(s, p).value);
      }
    }
  }

  /** A match function: the end of the match starting at each position,
      beyond that position and within a text of length `len`. */
  ghost predicate Advances(m: nat -> Option<nat>, len: nat)
  {
    forall r: nat :: m(r).Some? ==> r < m(r).value <= len
  }

  /** The `(start, end)` spans `re.findall` reports when it scans a text of
      length `len` from `p`, with `m` giving the match at each position: a
      match at the scan position is taken and the scan resumes at its end;
      otherwise the scan moves one character on. */
  function Scan(m: nat -> Option<nat>, len: nat, p: nat): seq<(nat, nat)>
    requires Advances(m, len)
    decreases len - p
  {
    if p >= len then []
    else
      match m(p)
      case None => Scan(m, len, p + 1)
      case Some(q) => [(p, q)] + Scan(m, len, q)
  }

  /** Every span starts at or after `p` and is the match at its start. */
  predicate SpansMatch(m: nat -> Option<nat>, p: nat, sp: seq<(nat, nat)>)
  {
    forall i :: 0 <= i < |sp| ==> p <= sp[i].0 && m(sp[i].0) == Some(sp[i].1)
  }

  /** The spans come in order and do not overlap. */
  predicate SpansOrdered(sp: seq<(nat, nat)>)
  {
    forall i :: 0 < i < |sp| ==> sp[i - 1].1 <= sp[i].0
  }

  /** Every position in [p, len) where a match starts lies inside some span. */
  predicate SpansCover(m: nat -> Option<nat>, len: nat, p: nat, sp: seq<(nat, nat)>)
  {
    forall r: nat :: p <= r < len && m(r).Some? ==>
      exists i :: 0 <= i < |sp| && sp[i].0 <= r < sp[i].1
  }

  /** Every reported span is the match at its start. */
  lemma {:induction false} ScanMatch(m: nat -> Option<nat>, len: nat, p: nat)
    requires Advances(m, len)
    ensures SpansMatch(m, p, Scan(m, len, p))
    decreases len - p
  {
    if p < len {
      match m(p)
      case None =>
        ScanMatch(m, len, p + 1);
      case Some(q) =>
        ScanMatch(m, len, q);
        var sp, rest := Scan(m, len, p), Scan(m, len, q);
        assert sp == [(p, q)] + rest;
        forall i | 0 < i < |sp|
          ensures p <= sp[i].0 && m(sp[i].0) == Some(sp[i].1)
        {
          assert sp[i] == rest[i - 1];
        }
    }
  }

  /** The reported spans come in order without overlapping. */
  lemma {:induction false} ScanOrdered(m: nat -> Option<nat>, len: nat, p: nat)
    requires Advances(m, len)
    ensures SpansOrdered(Scan(m, len, p))
    decreases len - p
  {
    if p < len {
      match m(p)
      case None =>
        ScanOrdered(m, len, p + 1);
      case Some(q) =>
        ScanOrdered(m, len, q);
        ScanMatch(m, len, q);
        var sp, rest := Scan(m, len, p), Scan(m, len, q);
        assert sp == [(p, q)] + rest;
        forall i | 0 < i < |sp|
          ensures sp[i - 1].1 <= sp[i].0
        {
          assert sp[i] == rest[i - 1];
          if i > 1 {
            assert sp[i - 1] == rest[i - 2];
          }
        }
    }
  }

  /** Every position from which a match starts lies inside some reported
      span: no match was skipped other than one overlapping a reported one. */
  lemma {:induction false} ScanComplete(m: nat -> Option<nat>, len: nat, p: nat)
    requires Advances(m, len)
    ensures SpansCover(m, len, p, Scan(m, len, p))
    decreases len - p
  {
    var sp := Scan(m, len, p);
    if p < len {
      match m(p)
      case None =>
        ScanComplete(m, len, p + 1);
        assert sp == Scan(m, len, p + 1);
      case Some(q) =>
        ScanComplete(m, len, q);
        var rest := Scan(m, len, q);
        assert sp == [(p, q)] + rest;
        forall r: nat | p <= r < len && m(r).Some?
          ensures exists i :: 0 <= i < |sp| && sp[i].0 <= r < sp[i].1
        {
          if r < q {
            assert sp[0].0 <= r < sp[0].1;
          } else {
            var i :| 0 <= i < |rest| && rest[i].0 <= r < rest[i].1;
            assert sp[i + 1] == rest[i];
          }
        }
    }
  }

  /** The match function of the column pattern on `s`. */
  function Matcher(s: string): (m: nat -> Option<nat>)
    ensures Advances(m, |s|)
  {
    (r: nat) => MatchEnd(s, r)
  }

  /** The spans `re.findall` reports on `s`. */
  function FindSpans(s: string): seq<(nat, nat)>
  {
    Scan(Matcher(s), |s|, 0)
  }

  /** `re.findall(pattern, s)`: the matched substrings, in order. */
  function FindAll(s: string): (r: seq<string>)
  {
    var sp := FindSpans(s);
    ScanMatch(Matcher(s), |s|, 0);
    seq(|sp|, i requires 0 <= i < |sp| =>
      assert SpansMatch(Matcher(s), 0, sp);
      assert MatchEnd(s, sp[i].0) == Some(sp[i].1);
      s[sp[i].0..sp[i].1])
  }

  /** What `re.findall` on `s` reports: in order and without overlap, each
      found string is the longest match of the pattern at its start, and
      every position where the pattern matches lies within a found one. */
  lemma FindAllSpec(s: string)
    ensures var sp := FindSpans(s);
            SpansOrdered(sp)
            && (forall i :: 0 <= i < |sp| ==>
                  IsMatch(s, sp[i].0, sp[i].1)
                  && (forall q: nat :: IsMatch(s, sp[i].0, q) ==> q <= sp[i].1)
                  && FindAll(s)[i] == s[sp[i].0..sp[i].1])
            && |FindAll(s)| == |sp|
            && forall r: nat, q: nat :: IsMatch(s, r, q) ==>
                 exists i :: 0 <= i < |sp| && sp[i].0 <= r < sp[i].1
  {
    var m, sp := Matcher(s), FindSpans(s);
    ScanMatch(m, |s|, 0);
    ScanOrdered(m, |s|, 0);
    ScanComplete(m, |s|, 0);
    forall i | 0 <= i < |sp|
      ensures IsMatch(s, sp[i].0, sp[i].1) && forall q: nat :: IsMatch(s, sp[i].0, q) ==> q <= sp[i].1
    {
      assert m(sp[i].0) == Some(sp[i].1);
      MatchEndSpec(s, sp[i].0);
    }
    forall r: nat, q: nat | IsMatch(s, r, q)
      ensures exists i :: 0 <= i < |sp| && sp[i].0 <= r < sp[i].1
    {
      MatchEndSpec(s, r);
      assert m(r).Some?;
    }
  }

  /** `h.strip().strip('}')` */
  function CleanName(h: string): string
  {
    Strip(Strip(h, Whitespace), {'}'})
  }

  /** The cleaned name is what remains of the found string once whitespace
      and closing braces are cut from both ends, whitespace first; it
      neither starts nor ends with a closing brace. */
  lemma CleanNameSpec(h: string)
    ensures exists a, b :: 0 <= a <= b <= |h| && CleanName(h) == h[a..b]
              && (forall i :: 0 <= i < a ==> h[i] in Whitespace || h[i] == '}')
              && (forall i :: b <= i < |h| ==> h[i] in Whitespace || h[i] == '}')
    ensures CleanName(h) != [] ==> CleanName(h)[0] != '}' && CleanName(h)[|CleanName(h)| - 1] != '}'
  {
    var a, b := StripTwice(h, Whitespace, {'}'});
    assert forall i :: 0 <= i < a ==> h[i] in Whitespace || h[i] == '}';
    assert forall i :: b <= i < |h| ==> h[i] in Whitespace || h[i] == '}';
  }

  /** The fourth line of the file with its first eleven characters (the
      `# Columns:` prefix) cut off; a short or missing line gives "". */
  function ColumnLine(lines: seq<string>): string
  {
    var l := ReadLine(lines, 3);
    if |l| <= 11 then "" else l[11..]
  }

  /** The column names in table order, before they go into the dictionary. */
  function Names(lines: seq<string>): seq<string>
  {
    var found := FindAll(ColumnLine(lines));
    seq(|found|, i requires 0 <= i < |found| => CleanName(found[i]))
  }
}
