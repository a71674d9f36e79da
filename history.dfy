/**
  Replaying a run's history (`trueValue` in src/tablegenerator.cpp and the
  way `read_results_file` uses its answer).

  The history field of a result row is a bracketed list of value/time pairs,
  `[v1:t1;v2:t2;...;vn:tn]`, in the order the solver reached them. Given a
  time limit, `trueValue` walks the list from the end and reports the latest
  pair whose time is within the limit. Parsing a time with `stod` and
  comparing it with the limit is abstracted as the predicate `fits`.
*/
module History {

  import opened Strings

  /** The value of an entry: everything before the first ':'. */
  function Val(e: string): string
  {
    e[..Find(e, ':')]
  }

  /** The time of an entry, as `token.substr(find(':') + 1, size() - 1)`
      computes it: everything after the first ':'. Without a ':' the start
      `npos + 1` wraps to 0 and the entry loses its last character (an empty
      entry stays empty). */
  function Time(e: string): string
  {
    var k := Find(e, ':');
    if k < |e| then e[k + 1..] else if |e| == 0 then "" else e[..|e| - 1]
  }

  /** An entry written as `v:t`. */
  function Pair(v: string, t: string): string
  {
    v + [':'] + t
  }

  lemma {:induction false} PairParts(v: string, t: string)
    requires Free(v, ':')
    ensures Val(Pair(v, t)) == v && Time(Pair(v, t)) == t
  {
    FindFree(v, ':');
    FindConcat(v, [':'] + t, ':');
    assert Pair(v, t) == v + ([':'] + t);
    assert Pair(v, t)[..|v|] == v;
  }

  /** The entries the backward scan examines, in trace order: all of them
      except a leading empty one, which the scan never reaches because it
      stops as soon as its cursor is at the opening bracket. */
  function Examined(es: seq<string>): seq<string>
  {
    if |es| > 0 && es[0] == "" then es[1..] else es
  }

  /** Index of the latest entry whose time fits, or -1 if there is none. */
  function LastFit(es: seq<string>, fits: string -> bool): (j: int)
    ensures -1 <= j < |es|
    ensures j >= 0 ==> fits(Time(es[j]))
    ensures forall k :: j < k < |es| ==> !fits(Time(es[k]))
  {
    if |es| == 0 then -1
    else if fits(Time(es[|es| - 1])) then |es| - 1
    else LastFit(es[..|es| - 1], fits)
  }

  /** The answer of `trueValue`, stated on the entries of the trace:
      ("", "") when the string is too short to hold an entry; ("0", "0")
      when no examined entry fits; ("", t) when the very last entry fits;
      otherwise the value and time of the latest entry that fits. */
  function Replay(str: string, fits: string -> bool): (string, string)
  {
    if |str| <= 2 then ("", "")
    else
      var es := Examined(Split(str[1..|str| - 1], ';'));
      var j := LastFit(es, fits);
      if j < 0 then ("0", "0")
      else if j == |es| - 1 then ("", Time(es[j]))
      else (Val(es[j]), Time(es[j]))
  }

  /** The entries of the trace up to and including position `pos` of the
      string (none once `pos` is at the opening bracket or before it). */
  ghost function Entries(str: string, pos: int): seq<string>
    requires -1 <= pos < |str|
  {
    if pos < 0 then [] else Examined(Split(str[1..pos + 1], ';'))
  }

  /** The entries the backward scan has not reached yet when its cursor is
      at `pos`: the one between the last ';' at or before `pos` (or the
      opening bracket) and `pos`, after those before that ';'. */
  ghost function Pending(str: string, pos: int): seq<string>
    requires pos < |str|
    decreases pos
  {
    if pos <= 0 then []
    else
      var r := RFind(str, ';', pos);
      var q := if r < 0 then 0 else r;
      Pending(str, q - 1) + [str[q + 1..pos + 1]]
  }

  /** One step of the scan, with the position of the ';' (or 0) given. */
  lemma {:induction false} PendingStep(str: string, pos: nat, q: nat)
    requires 0 < pos < |str|
    requires q == (if RFind(str, ';', pos) < 0 then 0 else RFind(str, ';', pos))
    ensures Pending(str, pos) == Pending(str, q - 1) + [str[q + 1..pos + 1]]
  {
  }

  /** The scan reaches exactly the entries of the trace. */
  lemma {:induction false} PendingEntries(str: string, pos: int)
    requires -1 <= pos < |str|
    ensures Pending(str, pos) == Entries(str, pos)
    decreases pos
  {
    if pos == 0 {
      assert str[1..1] == "";
      SplitNone("", ';');
    } else if pos > 0 {
      var r := RFind(str, ';', pos);
      if r >= 1 {
        PendingEntries(str, r - 1);
        PendingAfter(str, pos, r);
      } else {
        PendingFirst(str, pos, r);
      }
    }
  }

  /** The inductive step of `PendingEntries` past a ';'. */
  lemma {:induction false} PendingAfter(str: string, pos: nat, r: nat)
    requires 1 <= r <= pos < |str| && r == RFind(str, ';', pos)
    requires Pending(str, r - 1) == Entries(str, r - 1)
    ensures Pending(str, pos) == Entries(str, pos)
  {
    PendingStep(str, pos, r);
    RFindLast(str, ';', pos);
    EntriesAfter(str, pos, r);
  }

  /** The base step of `PendingEntries`: no ';' before the cursor. */
  lemma {:induction false} PendingFirst(str: string, pos: nat, r: int)
    requires 1 <= pos < |str| && r == RFind(str, ';', pos) && r <= 0
    ensures Pending(str, pos) == Entries(str, pos)
  {
    PendingStep(str, pos, 0);
    RFindLast(str, ';', pos);
    EntriesFirst(str, pos, r);
  }

  /** Splitting at a ';' inside the brackets that precedes the cursor. */
  lemma {:induction false} EntriesAfter(str: string, pos: nat, r: nat)
    requires 1 <= r <= pos < |str| && str[r] == ';'
    requires forall i :: r < i <= pos ==> str[i] != ';'
    ensures Entries(str, pos) == Entries(str, r - 1) + [str[r + 1..pos + 1]]
  {
    var x := str[1..pos + 1];
    assert x[r - 1] == ';';
    assert x[r..] == str[r + 1..pos + 1];
    SplitLast(x, ';', r - 1);
    assert x[..r - 1] == str[1..r];
    ExaminedAppend(Split(str[1..r], ';'), str[r + 1..pos + 1]);
  }

  /** No ';' inside the brackets precedes the cursor: one entry. */
  lemma {:induction false} EntriesFirst(str: string, pos: nat, r: int)
    requires 1 <= pos < |str| && -1 <= r <= 0
    requires forall i :: r < i <= pos ==> str[i] != ';'
    ensures Entries(str, pos) == [str[1..pos + 1]]
  {
    var x := str[1..pos + 1];
    assert Free(x, ';');
    FindFree(x, ';');
    SplitNone(x, ';');
  }

  lemma {:induction false} ExaminedAppend(es: seq<string>, e: string)
    requires |es| >= 1
    ensures Examined(es + [e]) == Examined(es) + [e]
  {
    if es[0] == "" {
      assert (es + [e])[1..] == es[1..] + [e];
    }
  }

  /** `trueValue`: a cursor walks back from the character before the closing
      bracket; each step cuts out the entry after the last ';' at or before
      the cursor, stops at the first entry whose time fits, and otherwise
      moves the cursor before that ';'. */
  method TrueValue(str: string, fits: string -> bool) returns (val: string, time: string)
    ensures (val, time) == Replay(str, fits)
  {
    val, time := "", "";
    var pos := |str| - 2;
    ghost var seen: seq<string> := [];
    ghost var es := if |str| > 2 then Examined(Split(str[1..|str| - 1], ';')) else [];
    if |str| > 2 {
      PendingEntries(str, pos);
    }
    while pos > 0
      invariant pos <= |str| - 2 && (|str| > 2 ==> -1 <= pos) && (|str| <= 2 ==> pos == |str| - 2)
      invariant |str| > 2 ==> es == Pending(str, pos) + seen
      invariant forall k :: 0 <= k < |seen| ==> !fits(Time(seen[k]))
      invariant seen == [] <==> pos == |str| - 2
      invariant seen == [] ==> val == "" && time == ""
      invariant seen != [] ==> val == "0" && time == "0"
      decreases pos
    {
      var newPos := RFind(str, ';', pos);
      if newPos < 0 {
        newPos := 0;
      }
      var token := str[newPos + 1..pos + 1];
      PendingStep(str, pos, newPos);
      val := Val(token);
      time := Time(token);
      Regroup(es, Pending(str, pos), Pending(str, newPos - 1), token, seen);
      if fits(time) {
        ReplayFound(str, fits, Pending(str, newPos - 1), token, seen);
        if pos == |str| - 2 {
          val := "";
        }
        return;
      }
      pos := newPos - 1;
      val := "0";
      time := "0";
      Prepend(token, seen, fits);
      seen := [token] + seen;
    }
    if |str| > 2 {
      assert es == seen;
      ReplayNone(str, fits, seen);
    }
  }

  lemma {:induction false} Regroup(es: seq<string>, pending: seq<string>, rest: seq<string>, e: string, seen: seq<string>)
    requires es == pending + seen && pending == rest + [e]
    ensures es == rest + ([e] + seen)
  {
  }

  lemma {:induction false} Prepend(e: string, seen: seq<string>, fits: string -> bool)
    requires !fits(Time(e))
    requires forall k :: 0 <= k < |seen| ==> !fits(Time(seen[k]))
    ensures forall k :: 0 <= k < |[e] + seen| ==> !fits(Time(([e] + seen)[k]))
  {
  }

  /** The scan stopped at an entry that fits, with only non-fitting entries
      after it. */
  lemma {:induction false} ReplayFound(str: string, fits: string -> bool, before: seq<string>, e: string, after: seq<string>)
    requires |str| > 2 && Examined(Split(str[1..|str| - 1], ';')) == before + ([e] + after)
    requires fits(Time(e))
    requires forall k :: 0 <= k < |after| ==> !fits(Time(after[k]))
    ensures Replay(str, fits) == if after == [] then ("", Time(e)) else (Val(e), Time(e))
  {
    var es := before + ([e] + after);
    assert es[|before|] == e;
    forall k | |before| < k < |es| ensures !fits(Time(es[k])) {
      assert es[k] == after[k - |before| - 1];
    }
    LastFitIs(es, fits, |before|);
  }

  /** The scan examined every entry and none fits. */
  lemma {:induction false} ReplayNone(str: string, fits: string -> bool, es: seq<string>)
    requires |str| > 2 && Examined(Split(str[1..|str| - 1], ';')) == es
    requires forall k :: 0 <= k < |es| ==> !fits(Time(es[k]))
    ensures Replay(str, fits) == ("0", "0")
  {
    LastFitNone(es, fits);
  }

  /** An entry that fits, with nothing after it fitting, is the last fit. */
  lemma {:induction false} LastFitIs(es: seq<string>, fits: string -> bool, j: nat)
    requires j < |es| && fits(Time(es[j]))
    requires forall k :: j < k < |es| ==> !fits(Time(es[k]))
    ensures LastFit(es, fits) == j
  {
  }

  /** When nothing fits there is no last fit. */
  lemma {:induction false} LastFitNone(es: seq<string>, fits: string -> bool)
    requires forall k :: 0 <= k < |es| ==> !fits(Time(es[k]))
    ensures LastFit(es, fits) == -1
  {
  }

  // ---------------------------------------------------------------------
  // The answer on a trace written out as pairs.

  function Pairs(vs: seq<string>, ts: seq<string>): (ps: seq<string>)
    requires |vs| == |ts|
    ensures |ps| == |vs| && forall k :: 0 <= k < |ps| ==> ps[k] == Pair(vs[k], ts[k])
  {
    seq(|vs|, k requires 0 <= k < |vs| => Pair(vs[k], ts[k]))
  }

  /** On a trace `[v1:t1;...;vn:tn]` (values without ':' or ';', times
      without ';') `trueValue` reports the latest pair whose time fits, or
      ("0", "0") when no time fits, or an empty value with the last time
      when the last pair already fits. */
  lemma {:induction false} ReplayOfPairs(vs: seq<string>, ts: seq<string>, fits: string -> bool)
    requires |vs| == |ts| >= 1
    requires forall k :: 0 <= k < |vs| ==> Free(vs[k], ':') && Free(vs[k], ';') && Free(ts[k], ';')
    ensures var ps := Pairs(vs, ts);
      var j := LastFit(ps, fits);
      Replay(['['] + Join(ps, ';') + [']'], fits) ==
        if j < 0 then ("0", "0") else if j == |ps| - 1 then ("", ts[j]) else (vs[j], ts[j])
  {
    var ps := Pairs(vs, ts);
    var str := ['['] + Join(ps, ';') + [']'];
    forall k | 0 <= k < |ps| ensures Free(ps[k], ';') {
      assert ps[k] == vs[k] + ([':'] + ts[k]);
    }
    SplitJoin(ps, ';');
    assert str[1..|str| - 1] == Join(ps, ';');
    assert ps[0][|vs[0]|] == ':';
    var j := LastFit(ps, fits);
    if j >= 0 {
      PairParts(vs[j], ts[j]);
    }
  }

  /** The caller's resolution (src/tablegenerator.cpp:521-527): a non-empty
      value from the history replaces the reported value and time. */
  function Resolve(reported: (string, string), replayed: (string, string)): (r: (string, string))
    ensures r == reported || r == replayed
  {
    if |replayed.0| > 0 then replayed else reported
  }

  /** When the most recent entry already fits, the row keeps its reported
      value and time. */
  lemma {:induction false} LatestFitsKeepsReported(str: string, fits: string -> bool, reported: (string, string))
    requires |str| > 2
    requires var es := Examined(Split(str[1..|str| - 1], ';'));
      |es| > 0 && fits(Time(es[|es| - 1]))
    ensures Resolve(reported, Replay(str, fits)) == reported
  {
  }

  /** When no entry fits, the row records value "0" at time "0". */
  lemma {:induction false} NothingFitsGivesZero(str: string, fits: string -> bool, reported: (string, string))
    requires |str| > 2
    requires var es := Examined(Split(str[1..|str| - 1], ';'));
      forall k :: 0 <= k < |es| ==> !fits(Time(es[k]))
    ensures Resolve(reported, Replay(str, fits)) == ("0", "0")
  {
    ReplayNone(str, fits, Examined(Split(str[1..|str| - 1], ';')));
  }

  /** A history too short to hold an entry changes nothing. */
  lemma {:induction false} ShortHistoryKeepsReported(str: string, fits: string -> bool, reported: (string, string))
    requires |str| <= 2
    ensures Resolve(reported, Replay(str, fits)) == reported
  {
  }
}
