/**
  The selection loops of `main` in src/extract.cpp.

  The program reads an optional list of interesting instance names and a
  summary file with one comma-separated line of 15 statistics per instance,
  and writes the names of the instances that pass its filter, counting them
  and tracking the smallest and largest node count among them.

  Files come in as sequences of lines.  The density and negative-weight
  thresholds are double arithmetic and `n` is read with `stoi`: both are
  parameters here (`fits` and `nodes`).
*/
module Extract {
  import opened Strings
  import opened Wrappers

  // ---------------------------------------------------------------------
  // The interesting-name list (lines 199-207).

  /** A list line that names an instance: not blank and not a comment once
      trimmed. */
  predicate Listed(line: string)
  {
    var t := TrimFind(line);
    t != "" && t[0] != '#'
  }

  /** The name a list line contributes: the trimmed line without one
      trailing carriage return. */
  function Entry(line: string): (r: string)
    requires Listed(line)
    ensures var t := TrimFind(line);
      if t[|t| - 1] == '\r' then r + ['\r'] == t else r == t
  {
    var t := TrimFind(line);
    if t[|t| - 1] == '\r' then t[..|t| - 1] else t
  }

  /** What a list line contributes, if anything. */
  function Contribution(line: string): (r: Option<string>)
    ensures r.Some? <==> Listed(line)
  {
    if Listed(line) then Some(Entry(line)) else None
  }

  /** The names `pick` finds in the lines, read from the first line on. */
  function Collect(lines: seq<string>, pick: string -> Option<string>): set<string>
  {
    if |lines| == 0 then {}
    else
      var c := pick(lines[|lines| - 1]);
      Collect(lines[..|lines| - 1], pick) + (if c.Some? then {c.value} else {})
  }

  /** The names collected from the list. */
  function Interesting(lines: seq<string>): set<string>
  {
    Collect(lines, Contribution)
  }

  /** A name is collected exactly when some line contributes it. */
  lemma {:induction false} CollectMembers(lines: seq<string>, pick: string -> Option<string>, name: string)
    ensures name in Collect(lines, pick) <==> exists i :: 0 <= i < |lines| && pick(lines[i]) == Some(name)
  {
    if |lines| > 0 {
      var m := |lines| - 1;
      var p := lines[..m];
      CollectMembers(p, pick, name);
      if exists i :: 0 <= i < |p| && pick(p[i]) == Some(name) {
        var i :| 0 <= i < |p| && pick(p[i]) == Some(name);
        assert lines[i] == p[i];
      }
      if exists i :: 0 <= i < |lines| && pick(lines[i]) == Some(name) {
        var i :| 0 <= i < |lines| && pick(lines[i]) == Some(name);
        if i < m {
          assert p[i] == lines[i];
        }
      }
    }
  }

  /** A name is in the list exactly when some listed line contributes it. */
  lemma {:induction false} InterestingMembers(lines: seq<string>, name: string)
    ensures name in Interesting(lines) <==>
      exists i :: 0 <= i < |lines| && Contribution(lines[i]) == Some(name)
  {
    CollectMembers(lines, Contribution, name);
  }

  /** On a line without carriage returns the name is the trimmed line: not
      empty, not a comment, and neither starting nor ending with a space. */
  lemma {:induction false} EntryTrimmed(line: string)
    requires Listed(line) && forall i :: 0 <= i < |line| ==> line[i] != '\r'
    ensures Entry(line) == TrimFind(line)
    ensures var r := Entry(line); r != "" && r[0] != '#' && r[0] != ' ' && r[|r| - 1] != ' '
  {
    var t := TrimFind(line);
    var f := FirstNotSpace(line);
    assert t[|t| - 1] == line[f + |t| - 1];
  }

  /** Trimming comes before the carriage return is dropped, so a CRLF line
      whose name is followed by spaces keeps those spaces. */
  lemma {:induction false} SpaceBeforeReturn()
    ensures Listed("ab \r") && Entry("ab \r") == "ab "
  {
    var line := "ab \r";
    assert FirstNotSpace(line) == 0;
    assert LastNotSpace(line) == 3;
    assert TrimFind(line) == line;
  }

  /** Reading one more line adds what that line contributes. */
  lemma {:induction false} CollectStep(lines: seq<string>, pick: string -> Option<string>, k: nat)
    requires k < |lines|
    ensures var c := pick(lines[k]);
      Collect(lines[..k + 1], pick) == Collect(lines[..k], pick) + (if c.Some? then {c.value} else {})
  {
    assert lines[..k + 1][..k] == lines[..k];
  }

  /** The body of the list loop for one line: trim, skip a blank or comment
      line, drop one trailing carriage return. */
  method ReadEntry(raw: string) returns (c: Option<string>)
    ensures c == Contribution(raw)
  {
    var line := TrimFind(raw);
    if line == "" || line[0] == '#' {
      return None;
    }
    if line[|line| - 1] == '\r' {
      line := line[..|line| - 1];
    }
    c := Some(line);
  }

  /** The list loop: every line's name, if any, is inserted. */
  method ReadInteresting(lines: seq<string>) returns (names: set<string>)
    ensures names == Interesting(lines)
  {
    names := {};
    var k := 0;
    while k < |lines|
      invariant 0 <= k <= |lines|
      invariant names == Collect(lines[..k], Contribution)
    {
      var c := ReadEntry(lines[k]);
      CollectStep(lines, Contribution, k);
      if c.Some? {
        names := names + {c.value};
      }
      k := k + 1;
    }
    assert lines[..k] == lines;
  }

  // ---------------------------------------------------------------------
  // The summary loop (lines 211-266).

  /** The fields of a summary line as `split(line, ",")` returns them. */
  function Tokens(line: string): (r: seq<string>)
    ensures |r| == Occurrences(line, ',') + 1
    ensures forall j :: 0 <= j < |r| ==> r[j] != ""
  {
    SplitCount(line, ',');
    ZeroFill(Split(line, ','))
  }

  /** The instance on a line is written: the line has all 15 fields, passes
      the thresholds, and, when a list was given, names a listed instance. */
  predicate Take(tokens: seq<string>, names: Option<set<string>>, fits: seq<string> -> bool)
  {
    |tokens| >= 15 && fits(tokens) && (names.None? || tokens[0] in names.value)
  }

  /** Every line split into its fields. */
  function Table(rows: seq<string>): (table: seq<seq<string>>)
    ensures |table| == |rows|
  {
    seq(|rows|, i requires 0 <= i < |rows| => Tokens(rows[i]))
  }

  /** The fields of the first `m` lines whose instance is written, in file
      order. */
  function Chosen(table: seq<seq<string>>, names: Option<set<string>>, fits: seq<string> -> bool, m: nat): (r: seq<seq<string>>)
    requires m <= |table|
    ensures |r| <= m
    ensures forall j :: 0 <= j < |r| ==> |r[j]| >= 15 && Take(r[j], names, fits)
  {
    if m == 0 then []
    else
      Chosen(table, names, fits, m - 1) + (if Take(table[m - 1], names, fits) then [table[m - 1]] else [])
  }

  /** The lines after the header. */
  function Body(lines: seq<string>): (r: seq<string>)
    ensures |lines| > 0 ==> r == lines[1..]
    ensures |lines| == 0 ==> r == []
  {
    if |lines| == 0 then [] else lines[1..]
  }

  /** Positions of the lines whose instance is written. */
  ghost function Taken(table: seq<seq<string>>, names: Option<set<string>>, fits: seq<string> -> bool, m: nat): set<nat>
    requires m <= |table|
  {
    set i: nat | i < m && Take(table[i], names, fits)
  }

  /** One instance is written per qualifying line, so short lines and lines
      that fail the filter add nothing to `n_extract`. */
  lemma {:induction false} ChosenCount(table: seq<seq<string>>, names: Option<set<string>>, fits: seq<string> -> bool, m: nat)
    requires m <= |table|
    ensures |Chosen(table, names, fits, m)| == |Taken(table, names, fits, m)|
  {
    if m > 0 {
      ChosenCount(table, names, fits, m - 1);
      if Take(table[m - 1], names, fits) {
        assert Taken(table, names, fits, m) == Taken(table, names, fits, m - 1) + {m - 1};
      } else {
        assert Taken(table, names, fits, m) == Taken(table, names, fits, m - 1);
      }
    }
  }

  /** The lines of a summary file whose instance is written, split. */
  function Selected(lines: seq<string>, names: Option<set<string>>, fits: seq<string> -> bool): seq<seq<string>>
  {
    Chosen(Table(Body(lines)), names, fits, |Body(lines)|)
  }

  /** The instance names of the chosen lines: their first fields. */
  function Heads(chosen: seq<seq<string>>): (r: seq<string>)
    requires forall j :: 0 <= j < |chosen| ==> |chosen[j]| >= 1
    ensures |r| == |chosen|
    ensures forall j :: 0 <= j < |r| ==> r[j] == chosen[j][0]
  {
    seq(|chosen|, j requires 0 <= j < |chosen| => chosen[j][0])
  }

  lemma {:induction false} HeadsStep(chosen: seq<seq<string>>, tokens: seq<string>)
    requires forall j :: 0 <= j < |chosen| ==> |chosen[j]| >= 1
    requires |tokens| >= 1
    ensures Heads(chosen + [tokens]) == Heads(chosen) + [tokens[0]]
  {
    var c := chosen + [tokens];
    assert forall j :: 0 <= j < |chosen| ==> c[j] == chosen[j];
  }

  /** The node count of the instance on chosen line j. */
  function Size(chosen: seq<seq<string>>, nodes: string -> nat, j: nat): nat
    requires j < |chosen| && |chosen[j]| >= 2
  {
    nodes(chosen[j][1])
  }

  /** `lo` and `hi` are the least and the largest node count among the
      chosen lines, or both 0 when there are none. */
  ghost predicate Extremes(chosen: seq<seq<string>>, nodes: string -> nat, lo: nat, hi: nat)
    requires forall j :: 0 <= j < |chosen| ==> |chosen[j]| >= 2
  {
    if |chosen| == 0 then lo == 0 && hi == 0
    else
      (forall j :: 0 <= j < |chosen| ==> lo <= Size(chosen, nodes, j) <= hi)
      && (exists j :: 0 <= j < |chosen| && Size(chosen, nodes, j) == lo)
      && (exists j :: 0 <= j < |chosen| && Size(chosen, nodes, j) == hi)
  }

  /** Adding a chosen line widens the range to take in its node count. */
  lemma {:induction false} ExtremesStep(chosen: seq<seq<string>>, tokens: seq<string>, nodes: string -> nat, lo: nat, hi: nat, lo': nat, hi': nat)
    requires forall j :: 0 <= j < |chosen| ==> |chosen[j]| >= 2
    requires |tokens| >= 2 && Extremes(chosen, nodes, lo, hi)
    requires var n := nodes(tokens[1]);
      if |chosen| == 0 then lo' == n == hi'
      else lo' <= lo && lo' <= n && (lo' == lo || lo' == n) && hi' >= hi && hi' >= n && (hi' == hi || hi' == n)
    ensures Extremes(chosen + [tokens], nodes, lo', hi')
  {
    var c := chosen + [tokens];
    var n := nodes(tokens[1]);
    assert Size(c, nodes, |chosen|) == n;
    forall j | 0 <= j < |chosen|
      ensures Size(c, nodes, j) == Size(chosen, nodes, j)
    {
      assert c[j] == chosen[j];
    }
    if |chosen| > 0 {
      var i :| 0 <= i < |chosen| && Size(chosen, nodes, i) == lo;
      var l :| 0 <= l < |chosen| && Size(chosen, nodes, l) == hi;
      assert lo' == n || Size(c, nodes, i) == lo';
      assert hi' == n || Size(c, nodes, l) == hi';
    }
  }

  /** The range update: the first count opens the range, every later one
      widens it. */
  method Widen(firstTime: bool, lo: nat, hi: nat, n: nat) returns (lo': nat, hi': nat)
    ensures firstTime ==> lo' == n == hi'
    ensures !firstTime ==> lo' <= lo && lo' <= n && (lo' == lo || lo' == n)
    ensures !firstTime ==> hi' >= hi && hi' >= n && (hi' == hi || hi' == n)
  {
    if firstTime {
      lo', hi' := n, n;
    } else {
      lo' := if n < lo then n else lo;
      hi' := if hi < n then n else hi;
    }
  }

  /** The state of the summary loop after the first k lines: the names
      written and their count are those of the chosen lines, and the node
      range spans them. */
  ghost predicate Tallied(table: seq<seq<string>>, names: Option<set<string>>, fits: seq<string> -> bool,
                          nodes: string -> nat, k: nat, written: seq<string>, nExtract: nat,
                          lo: nat, hi: nat, firstTime: bool)
  {
    k <= |table|
    && written == Heads(Chosen(table, names, fits, k))
    && nExtract == |written|
    && (firstTime <==> nExtract == 0)
    && Extremes(Chosen(table, names, fits, k), nodes, lo, hi)
  }

  /** Before the first line nothing is written and the range is 0 .. 0. */
  lemma {:induction false} TallyStart(table: seq<seq<string>>, names: Option<set<string>>, fits: seq<string> -> bool, nodes: string -> nat)
    ensures Tallied(table, names, fits, nodes, 0, [], 0, 0, 0, true)
  {
    assert Heads([]) == [];
  }

  /** A line that does not qualify leaves the tally as it is. */
  lemma {:induction false} TallySkip(table: seq<seq<string>>, names: Option<set<string>>, fits: seq<string> -> bool,
                  nodes: string -> nat, k: nat, written: seq<string>, nExtract: nat,
                  lo: nat, hi: nat, firstTime: bool)
    requires Tallied(table, names, fits, nodes, k, written, nExtract, lo, hi, firstTime)
    requires k < |table| && !Take(table[k], names, fits)
    ensures Tallied(table, names, fits, nodes, k + 1, written, nExtract, lo, hi, firstTime)
  {
    assert Chosen(table, names, fits, k + 1) == Chosen(table, names, fits, k);
  }

  /** A qualifying line adds its name, one to the count, and its node count
      to the range. */
  lemma {:induction false} TallyAdd(table: seq<seq<string>>, names: Option<set<string>>, fits: seq<string> -> bool,
                 nodes: string -> nat, k: nat, written: seq<string>, nExtract: nat,
                 lo: nat, hi: nat, firstTime: bool, lo': nat, hi': nat)
    requires Tallied(table, names, fits, nodes, k, written, nExtract, lo, hi, firstTime)
    requires k < |table| && Take(table[k], names, fits)
    requires var n := nodes(table[k][1]);
      if firstTime then lo' == n == hi'
      else lo' <= lo && lo' <= n && (lo' == lo || lo' == n) && hi' >= hi && hi' >= n && (hi' == hi || hi' == n)
    ensures Tallied(table, names, fits, nodes, k + 1, written + [table[k][0]], nExtract + 1, lo', hi', false)
  {
    var chosen := Chosen(table, names, fits, k);
    ExtremesStep(chosen, table[k], nodes, lo, hi, lo', hi');
    HeadsStep(chosen, table[k]);
  }

  /** The summary loop: skip the header, then read every line in turn. */
  method ReadSummary(lines: seq<string>, names: Option<set<string>>, fits: seq<string> -> bool, nodes: string -> nat)
    returns (written: seq<string>, nExtract: nat, minNodes: nat, maxNodes: nat)
    ensures written == Heads(Selected(lines, names, fits)) && nExtract == |written|
    ensures Extremes(Selected(lines, names, fits), nodes, minNodes, maxNodes)
  {
    var rows := Body(lines);
    written := [];
    nExtract := 0;
    minNodes, maxNodes := 0, 0;
    var firstTime := true;
    ghost var table := Table(rows);
    TallyStart(table, names, fits, nodes);
    var k := 0;
    while k < |rows|
      invariant k <= |rows|
      invariant Tallied(table, names, fits, nodes, k, written, nExtract, minNodes, maxNodes, firstTime)
    {
      written, nExtract, minNodes, maxNodes, firstTime :=
        ReadLine(rows, k, names, fits, nodes, table, written, nExtract, minNodes, maxNodes, firstTime);
      k := k + 1;
    }
  }

  /** One pass of the summary loop: split line k, skip it when it has
      fewer than 15 fields, and when it passes write its name, count it and
      widen the node range. */
  method ReadLine(rows: seq<string>, k: nat, names: Option<set<string>>, fits: seq<string> -> bool,
                  nodes: string -> nat, ghost table: seq<seq<string>>,
                  written: seq<string>, nExtract: nat, minNodes: nat, maxNodes: nat, firstTime: bool)
    returns (written': seq<string>, nExtract': nat, minNodes': nat, maxNodes': nat, firstTime': bool)
    requires k < |rows| && table == Table(rows)
    requires Tallied(table, names, fits, nodes, k, written, nExtract, minNodes, maxNodes, firstTime)
    ensures Tallied(table, names, fits, nodes, k + 1, written', nExtract', minNodes', maxNodes', firstTime')
  {
    var tokens := SplitFields(rows[k], ',');
    assert tokens == table[k];
    written', nExtract', minNodes', maxNodes', firstTime' := written, nExtract, minNodes, maxNodes, firstTime;
    if |tokens| < 15 {
      TallySkip(table, names, fits, nodes, k, written, nExtract, minNodes, maxNodes, firstTime);
      return;
    }
    if fits(tokens) && (names.None? || tokens[0] in names.value) {
      minNodes', maxNodes' := Widen(firstTime, minNodes, maxNodes, nodes(tokens[1]));
      TallyAdd(table, names, fits, nodes, k, written, nExtract, minNodes, maxNodes, firstTime, minNodes', maxNodes');
      written' := written + [tokens[0]];
      nExtract' := nExtract + 1;
      firstTime' := false;
    } else {
      TallySkip(table, names, fits, nodes, k, written, nExtract, minNodes, maxNodes, firstTime);
    }
  }
}
