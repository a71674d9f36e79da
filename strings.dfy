/**
  The string toolkit both programs rely on: single-character search
  (`std::string::find`, `rfind`, `find_first_not_of`, `find_last_not_of`),
  splitting on a delimiter, and the two `trim` helpers
  (src/tablegenerator.cpp and src/extract.cpp).

  `Split` is the reference meaning of "the fields of a line": it is defined
  left to right, and `Join` is its inverse.
*/
module Strings {

  /** `s.find(c)`, with |s| standing for `npos`. */
  function Find(s: string, c: char): (k: nat)
    ensures k <= |s|
    ensures k < |s| ==> s[k] == c
  {
    if |s| == 0 then 0 else if s[0] == c then 0 else 1 + Find(s[1..], c)
  }

  /** No occurrence of `c` precedes the one `Find` reports. */
  lemma {:induction false} FindFirst(s: string, c: char, i: nat)
    requires i < Find(s, c)
    ensures s[i] != c
  {
    if i > 0 {
      FindFirst(s[1..], c, i - 1);
    }
  }

  /** Finding in a prefix that contains the first occurrence. */
  lemma {:induction false} FindPrefix(s: string, c: char, n: nat)
    requires Find(s, c) < n <= |s|
    ensures Find(s[..n], c) == Find(s, c)
  {
    if s[0] != c {
      assert s[..n][1..] == s[1..][..n - 1];
      FindPrefix(s[1..], c, n - 1);
    }
  }

  /** A string none of whose characters is `c`. */
  predicate Free(s: string, c: char)
  {
    forall i :: 0 <= i < |s| ==> s[i] != c
  }

  lemma {:induction false} FindFree(s: string, c: char)
    requires Free(s, c)
    ensures Find(s, c) == |s|
  {
    if |s| > 0 {
      FindFree(s[1..], c);
    }
  }

  /** `s.rfind(c, pos)`: the last index at or before `pos` holding `c`, or
      -1 (`npos`) when there is none. */
  function RFind(s: string, c: char, pos: nat): (k: int)
    requires pos < |s|
    ensures -1 <= k <= pos
    ensures k >= 0 ==> s[k] == c
  {
    if s[pos] == c then pos else if pos == 0 then -1 else RFind(s, c, pos - 1)
  }

  /** Nothing after the index `rfind` returns, up to `pos`, holds `c`. */
  lemma {:induction false} RFindLast(s: string, c: char, pos: nat)
    requires pos < |s|
    ensures forall i :: RFind(s, c, pos) < i <= pos ==> s[i] != c
  {
    if s[pos] != c && pos > 0 {
      RFindLast(s, c, pos - 1);
    }
  }

  /** Number of occurrences of `c` in `s`. */
  function Occurrences(s: string, c: char): nat
  {
    if |s| == 0 then 0 else (if s[0] == c then 1 else 0) + Occurrences(s[1..], c)
  }

  /** The fields of `s` between occurrences of `c`, left to right. */
  function Split(s: string, c: char): (r: seq<string>)
    ensures |r| >= 1
    decreases |s|
  {
    var k := Find(s, c);
    if k == |s| then [s] else [s[..k]] + Split(s[k + 1..], c)
  }

  /** The fields glued back together with `c` between them. */
  function Join(ts: seq<string>, c: char): string
    requires |ts| >= 1
  {
    if |ts| == 1 then ts[0] else ts[0] + [c] + Join(ts[1..], c)
  }

  /** A line without the delimiter is a single field. */
  lemma {:induction false} SplitNone(t: string, c: char)
    requires Find(t, c) == |t|
    ensures Split(t, c) == [t]
  {
  }

  /** One step of `Split`: the field before the first delimiter, then the
      fields of the rest. */
  lemma {:induction false} SplitAt(t: string, c: char, k: nat)
    requires k == Find(t, c) < |t|
    ensures Split(t, c) == [t[..k]] + Split(t[k + 1..], c)
  {
  }

  /** Joining the fields gives back the line. */
  lemma {:induction false} JoinSplit(s: string, c: char)
    ensures Join(Split(s, c), c) == s
    decreases |s|
  {
    var k := Find(s, c);
    if k == |s| {
      SplitNone(s, c);
    } else {
      var rest := Split(s[k + 1..], c);
      SplitAt(s, c, k);
      var ts := [s[..k]] + rest;
      assert ts[0] == s[..k] && ts[1..] == rest;
      JoinSplit(s[k + 1..], c);
      assert Join(ts, c) == s[..k] + [c] + s[k + 1..];
      assert s == s[..k] + [c] + s[k + 1..];
    }
  }

  /** Splitting a join of delimiter-free fields gives back the fields. */
  lemma {:induction false} SplitJoin(ts: seq<string>, c: char)
    requires |ts| >= 1
    requires forall j :: 0 <= j < |ts| ==> Free(ts[j], c)
    ensures Split(Join(ts, c), c) == ts
  {
    FindFree(ts[0], c);
    if |ts| == 1 {
      SplitNone(ts[0], c);
    } else {
      var tail := ts[1..];
      var rest := Join(tail, c);
      var s := ts[0] + ([c] + rest);
      assert Join(ts, c) == s;
      FindConcat(ts[0], [c] + rest, c);
      assert Find([c] + rest, c) == 0;
      SplitAt(s, c, |ts[0]|);
      assert s[..|ts[0]|] == ts[0];
      assert s[|ts[0]| + 1..] == rest;
      assert forall j :: 0 <= j < |tail| ==> Free(tail[j], c) by {
        forall j | 0 <= j < |tail| ensures Free(tail[j], c) {
          assert tail[j] == ts[j + 1];
        }
      }
      SplitJoin(tail, c);
      assert ts == [ts[0]] + tail;
    }
  }

  /** Searching past a prefix free of `c`. */
  lemma {:induction false} FindConcat(a: string, b: string, c: char)
    requires Find(a, c) == |a|
    ensures Find(a + b, c) == |a| + Find(b, c)
  {
    if |a| > 0 {
      assert (a + b)[1..] == a[1..] + b;
      FindConcat(a[1..], b, c);
    } else {
      assert a + b == b;
    }
  }

  /** A line with n delimiters has n + 1 fields. */
  lemma {:induction false} SplitCount(s: string, c: char)
    ensures |Split(s, c)| == Occurrences(s, c) + 1
    decreases |s|
  {
    var k := Find(s, c);
    if k == |s| {
      NoOccurrences(s, c);
    } else {
      SplitCount(s[k + 1..], c);
      OccurrencesAt(s, c, k);
    }
  }

  lemma {:induction false} NoOccurrences(s: string, c: char)
    requires Find(s, c) == |s|
    ensures Occurrences(s, c) == 0
  {
    if |s| > 0 {
      NoOccurrences(s[1..], c);
    }
  }

  /** Counting across the first occurrence, at index k. */
  lemma {:induction false} OccurrencesAt(s: string, c: char, k: nat)
    requires k == Find(s, c) < |s|
    ensures Occurrences(s, c) == 1 + Occurrences(s[k + 1..], c)
  {
    if k > 0 {
      OccurrencesAt(s[1..], c, k - 1);
      assert s[1..][k..] == s[k + 1..];
    }
  }

  /** The fields of `s` seen from the right: the part after the last `c`
      is the last field, and the fields before it are those of the prefix. */
  lemma {:induction false} SplitLast(s: string, c: char, q: nat)
    requires q < |s| && s[q] == c && Free(s[q + 1..], c)
    ensures Split(s, c) == Split(s[..q], c) + [s[q + 1..]]
    decreases |s|
  {
    var k := Find(s, c);
    assert k <= q by {
      if k > q { FindFirst(s, c, q); }
    }
    if k == q {
      SplitLastOnly(s, c, q);
    } else {
      TailShift(s, c, q, k);
      SplitLast(s[k + 1..], c, q - k - 1);
      SplitLastLater(s, c, q, k);
    }
  }

  /** Seen from the text after an earlier delimiter at k, the delimiter at q
      sits at q - k - 1 with the same free text after it. */
  lemma {:induction false} TailShift(s: string, c: char, q: nat, k: nat)
    requires k < q < |s| && s[q] == c && Free(s[q + 1..], c)
    ensures q - k - 1 < |s[k + 1..]| && s[k + 1..][q - k - 1] == c
    ensures Free(s[k + 1..][q - k..], c)
  {
    assert s[k + 1..][q - k..] == s[q + 1..];
  }

  /** `SplitLast` when the last delimiter is also the first. */
  lemma {:induction false} SplitLastOnly(s: string, c: char, q: nat)
    requires q == Find(s, c) < |s| && Free(s[q + 1..], c)
    ensures Split(s, c) == Split(s[..q], c) + [s[q + 1..]]
  {
    FindFree(s[q + 1..], c);
    SplitNone(s[q + 1..], c);
    SplitAt(s, c, q);
    assert Free(s[..q], c) by {
      forall i | 0 <= i < q ensures s[..q][i] != c { FindFirst(s, c, i); }
    }
    FindFree(s[..q], c);
    SplitNone(s[..q], c);
  }

  /** `SplitLast` when an earlier delimiter sits at `k`, given the fields of
      the text after it. */
  lemma {:induction false} SplitLastLater(s: string, c: char, q: nat, k: nat)
    requires k == Find(s, c) < q < |s|
    requires Split(s[k + 1..], c) == Split(s[k + 1..][..q - k - 1], c) + [s[q + 1..]]
    ensures Split(s, c) == Split(s[..q], c) + [s[q + 1..]]
  {
    var w := s[k + 1..];
    var p := s[..q];
    SplitAt(s, c, k);
    FindPrefix(s, c, q);
    SplitAt(p, c, k);
    assert p[..k] == s[..k];
    assert p[k + 1..] == w[..q - k - 1];
  }

  /** A delimiter appended to a line adds one empty last field. */
  lemma {:induction false} SplitTerminated(s: string, c: char)
    ensures Split(s + [c], c) == Split(s, c) + [""]
  {
    var t := s + [c];
    assert t[|s|] == c && t[|s| + 1..] == [];
    SplitLast(t, c, |s|);
    assert t[..|s|] == s;
  }

  // ---------------------------------------------------------------------
  // Trimming spaces.

  predicate Spaces(s: string)
  {
    forall i :: 0 <= i < |s| ==> s[i] == ' '
  }

  /** `s.find_first_not_of(' ')`, with |s| standing for `npos`. */
  function FirstNotSpace(s: string): (k: nat)
    ensures k <= |s|
    ensures forall i :: 0 <= i < k ==> s[i] == ' '
    ensures k < |s| ==> s[k] != ' '
  {
    if |s| == 0 || s[0] != ' ' then 0 else 1 + FirstNotSpace(s[1..])
  }

  /** `s.find_last_not_of(' ')`, with -1 standing for `npos` (so that, as in
      the source, one past it is 0). */
  function LastNotSpace(s: string): (k: int)
    ensures -1 <= k < |s|
    ensures forall i :: k < i < |s| ==> s[i] == ' '
    ensures k >= 0 ==> s[k] != ' '
  {
    if |s| == 0 then -1
    else if s[|s| - 1] != ' ' then |s| - 1
    else LastNotSpace(s[..|s| - 1])
  }

  /** `trim` of src/extract.cpp: "" when there is nothing but spaces,
      otherwise the text from the first to the last non-space character. */
  function TrimFind(s: string): (r: string)
    ensures r == "" <==> Spaces(s)
    ensures r != "" ==> r[0] != ' ' && r[|r| - 1] != ' '
    ensures var f := FirstNotSpace(s);
      f + |r| <= |s| && r == s[f..f + |r|] && Spaces(s[..f]) && Spaces(s[f + |r|..])
  {
    var first := FirstNotSpace(s);
    if first == |s| then
      assert s[..first] == s;
      ""
    else
      var last := LastNotSpace(s);
      s[first..last + 1]
  }

  /** `trim` of src/tablegenerator.cpp: erase the tail after the last
      non-space character, then the spaces before the first one. */
  function TrimErase(s: string): (r: string)
    ensures r == "" <==> Spaces(s)
    ensures r != "" ==> r[0] != ' ' && r[|r| - 1] != ' '
  {
    var last := LastNotSpace(s);
    var t := s[..last + 1];
    assert last >= 0 ==> t[last] == s[last] && FirstNotSpace(t) <= last;
    t[FirstNotSpace(t)..]
  }

  /** The two trims agree on every input. */
  lemma {:induction false} TrimsAgree(s: string)
    ensures TrimErase(s) == TrimFind(s)
  {
    var last := LastNotSpace(s);
    var t := s[..last + 1];
    if !Spaces(s) {
      var first := FirstNotSpace(s);
      assert t[first] == s[first];
    }
  }

  // ---------------------------------------------------------------------
  // `split` of src/extract.cpp.

  /** Splitting the rest of a line at its next delimiter, found at `end`. */
  lemma {:induction false} SplitFrom(s: string, c: char, start: nat, end: nat)
    requires start <= |s| && end == start + Find(s[start..], c) < |s|
    ensures Split(s[start..], c) == [s[start..end]] + Split(s[end + 1..], c)
  {
    var t := s[start..];
    SplitAt(t, c, end - start);
    assert t[..end - start] == s[start..end];
    assert t[end - start + 1..] == s[end + 1..];
  }

  /** A field as `split` hands it out: "0" in place of an empty one. */
  function NonEmpty(t: string): (r: string)
    ensures r != ""
    ensures t != "" ==> r == t
  {
    if t == "" then "0" else t
  }

  /** Every empty field replaced by "0", the others left alone. */
  function ZeroFill(ts: seq<string>): (r: seq<string>)
    ensures |r| == |ts|
    ensures forall j :: 0 <= j < |r| ==> r[j] == NonEmpty(ts[j])
  {
    seq(|ts|, j requires 0 <= j < |ts| => NonEmpty(ts[j]))
  }

  /** `split(s, delimiter)` with a one-character delimiter: cut at each
      occurrence from left to right, keep the rest as the last token, then
      turn every empty token into "0". */
  method SplitFields(s: string, c: char) returns (tokens: seq<string>)
    ensures tokens == ZeroFill(Split(s, c))
  {
    tokens := Cut(s, c);
    ghost var fields := tokens;
    var i := 0;
    while i < |tokens|
      invariant 0 <= i <= |tokens| == |fields|
      invariant forall j :: 0 <= j < i ==> tokens[j] == NonEmpty(fields[j])
      invariant forall j :: i <= j < |tokens| ==> tokens[j] == fields[j]
    {
      if tokens[i] == "" {
        tokens := tokens[i := "0"];
      }
      i := i + 1;
    }
  }

  /** The cutting loop of `split`: a token per delimiter, left to right,
      and the rest of the line as the last token. */
  method Cut(s: string, c: char) returns (tokens: seq<string>)
    ensures tokens == Split(s, c)
  {
    tokens := [];
    var start := 0;
    var end := start + Find(s[start..], c);
    while end < |s|
      invariant 0 <= start <= end <= |s|
      invariant end == start + Find(s[start..], c)
      invariant Split(s, c) == tokens + Split(s[start..], c)
      decreases |s| - start
    {
      SplitFrom(s, c, start, end);
      tokens := tokens + [s[start..end]];
      start := end + 1;
      end := start + Find(s[start..], c);
    }
    assert Split(s[start..], c) == [s[start..]];
    tokens := tokens + [s[start..]];
  }
}
