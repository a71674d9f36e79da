/**
  The loops of the statistics passes of src/tablegenerator.cpp, over the
  string tables the generator holds: each pass builds its matrix or
  vector row by row, comparing strings with `Compare`, and is proved to
  compute the specification function of module Statistics at every
  index. The generator's methods store what these return.
*/
module Passes {

  import opened Registry
  import opened Ingest
  import opened Statistics

  // ---------------------------------------------------------------------
  // `MaxBySeeds` and `MinBySeeds`.

  /** The best value over the seeds of (instance i, algorithm h), ties
      going to the earlier time, and that time. */
  ghost function BestCell(values: Table, times: Table, d: Dims, key: string -> real, i: nat, h: nat): (string, string)
    requires Grid(values, d) && Grid(times, d) && i < d.insts && h < d.algs && 1 <= d.seeds
  {
    var k := BestIndex(Column(values, d, i, h), Column(times, d, i, h), key, d.seeds);
    (values[k][i][h], times[k][i][h])
  }

  /** One instance of `MaxBySeeds`: per algorithm, the best value over the
      seeds (ties to the earlier time) and its time. */
  method BestRow(values: Table, times: Table, d: Dims, i: nat, cmp: (string, string) -> int, ghost key: string -> real)
    returns (row: seq<string>, trow: seq<string>)
    requires Grid(values, d) && Grid(times, d) && i < d.insts && 1 <= d.seeds
    requires Measures(cmp, key)
    ensures |row| == |trow| == d.algs
    ensures forall h :: 0 <= h < d.algs ==> (row[h], trow[h]) == BestCell(values, times, d, key, i, h)
  {
    row, trow := [], [];
    for h := 0 to d.algs
      invariant |row| == |trow| == h
      invariant forall h' :: 0 <= h' < h ==> (row[h'], trow[h']) == BestCell(values, times, d, key, i, h')
    {
      var v, t := PickBest(Column(values, d, i, h), Column(times, d, i, h), cmp, key);
      row, trow := row + [v], trow + [t];
    }
  }

  /** `MaxBySeeds`: the best-over-seeds value of every (instance,
      algorithm) and its time. */
  method BestBySeeds(values: Table, times: Table, d: Dims, cmp: (string, string) -> int, ghost key: string -> real)
    returns (m: seq<seq<string>>, tm: seq<seq<string>>)
    requires Grid(values, d) && Grid(times, d) && 1 <= d.seeds
    requires Measures(cmp, key)
    ensures Mat(m, d) && Mat(tm, d)
    ensures forall i, h :: 0 <= i < d.insts && 0 <= h < d.algs ==> (m[i][h], tm[i][h]) == BestCell(values, times, d, key, i, h)
  {
    m, tm := [], [];
    for i := 0 to d.insts
      invariant |m| == |tm| == i
      invariant forall i' :: 0 <= i' < i ==> |m[i']| == |tm[i']| == d.algs
      invariant forall i', h :: 0 <= i' < i && 0 <= h < d.algs ==> (m[i'][h], tm[i'][h]) == BestCell(values, times, d, key, i', h)
    {
      var row, trow := BestRow(values, times, d, i, cmp, key);
      m, tm := m + [row], tm + [trow];
    }
  }

  /** The first smallest value over the seeds of (instance i, algorithm h). */
  ghost function LeastCell(values: Table, d: Dims, key: string -> real, i: nat, h: nat): string
    requires Grid(values, d) && i < d.insts && h < d.algs && 1 <= d.seeds
  {
    values[FirstMin(Column(values, d, i, h), key, d.seeds)][i][h]
  }

  /** One instance of `MinBySeeds`. */
  method LeastRow(values: Table, d: Dims, i: nat, cmp: (string, string) -> int, ghost key: string -> real) returns (row: seq<string>)
    requires Grid(values, d) && i < d.insts && 1 <= d.seeds
    requires Measures(cmp, key)
    ensures |row| == d.algs
    ensures forall h :: 0 <= h < d.algs ==> row[h] == LeastCell(values, d, key, i, h)
  {
    row := [];
    for h := 0 to d.algs
      invariant |row| == h
      invariant forall h' :: 0 <= h' < h ==> row[h'] == LeastCell(values, d, key, i, h')
    {
      var v := PickMin(Column(values, d, i, h), cmp, key);
      row := row + [v];
    }
  }

  /** `MinBySeeds`: the first smallest value over the seeds of every
      (instance, algorithm). */
  method LeastBySeeds(values: Table, d: Dims, cmp: (string, string) -> int, ghost key: string -> real) returns (m: seq<seq<string>>)
    requires Grid(values, d) && 1 <= d.seeds
    requires Measures(cmp, key)
    ensures Mat(m, d)
    ensures forall i, h :: 0 <= i < d.insts && 0 <= h < d.algs ==>
      m[i][h] == LeastCell(values, d, key, i, h)
  {
    m := [];
    for i := 0 to d.insts
      invariant |m| == i
      invariant forall i' :: 0 <= i' < i ==> |m[i']| == d.algs
      invariant forall i', h :: 0 <= i' < i && 0 <= h < d.algs ==>
        m[i'][h] == LeastCell(values, d, key, i', h)
    {
      var row := LeastRow(values, d, i, cmp, key);
      m := m + [row];
    }
  }

  // ---------------------------------------------------------------------
  // String `MaxByAlg` and `MaxByAlgButOne` on the best-over-seeds matrix.

  /** `MaxByAlg`: per instance, the best of the best-over-seeds values
      over the algorithms (ties to the earlier time) and its time. */
  method BestByAlg(mbs: seq<seq<string>>, tmbs: seq<seq<string>>, d: Dims, cmp: (string, string) -> int, ghost key: string -> real) returns (out: seq<string>, tout: seq<string>)
    requires Mat(mbs, d) && Mat(tmbs, d) && 1 <= d.algs
    requires Measures(cmp, key)
    ensures |out| == |tout| == d.insts
    ensures forall i :: 0 <= i < d.insts ==>
      var k := BestIndex(mbs[i], tmbs[i], key, d.algs);
      out[i] == mbs[i][k] && tout[i] == tmbs[i][k]
  {
    out, tout := [], [];
    for i := 0 to d.insts
      invariant |out| == |tout| == i
      invariant forall i' :: 0 <= i' < i ==>
        var k := BestIndex(mbs[i'], tmbs[i'], key, d.algs);
        out[i'] == mbs[i'][k] && tout[i'] == tmbs[i'][k]
    {
      var v, t := PickBest(mbs[i], tmbs[i], cmp, key);
      out, tout := out + [v], tout + [t];
    }
  }

  /** The first largest entry of a row other than entry h. */
  ghost function OthersBest(row: seq<string>, key: string -> real, h: nat): string
    requires 2 <= |row| && h < |row|
  {
    Without(row, h)[FirstMax(Without(row, h), key, |row| - 1)]
  }

  /** One instance of `MaxByAlgButOne`. */
  method OthersRow(row: seq<string>, n: nat, cmp: (string, string) -> int, ghost key: string -> real) returns (out: seq<string>)
    requires |row| == n && 2 <= n
    requires Measures(cmp, key)
    ensures |out| == n
    ensures forall h :: 0 <= h < n ==> out[h] == OthersBest(row, key, h)
  {
    out := [];
    for h := 0 to n
      invariant |out| == h
      invariant forall h' :: 0 <= h' < h ==> out[h'] == OthersBest(row, key, h')
    {
      var v := PickMaxWithout(row, h, cmp, key);
      out := out + [v];
    }
  }

  /** `MaxByAlgButOne`: per (instance, algorithm h), the first largest
      best-over-seeds value among the algorithms other than h. */
  method BestOfOthers(mbs: seq<seq<string>>, d: Dims, cmp: (string, string) -> int, ghost key: string -> real) returns (m: seq<seq<string>>)
    requires Mat(mbs, d) && 2 <= d.algs
    requires Measures(cmp, key)
    ensures Mat(m, d)
    ensures forall i, h :: 0 <= i < d.insts && 0 <= h < d.algs ==>
      m[i][h] == OthersBest(mbs[i], key, h)
  {
    m := [];
    for i := 0 to d.insts
      invariant |m| == i
      invariant forall i' :: 0 <= i' < i ==> |m[i']| == d.algs
      invariant forall i', h :: 0 <= i' < i && 0 <= h < d.algs ==>
        m[i'][h] == OthersBest(mbs[i'], key, h)
    {
      var row := OthersRow(mbs[i], d.algs, cmp, key);
      m := m + [row];
    }
  }

  // ---------------------------------------------------------------------
  // BA and EBA before their division by the number of instances.

  /** The count `BestAchievedPercentage` makes for algorithm h. */
  method AchievedFor(mbs: seq<seq<string>>, mba: seq<string>, d: Dims, h: nat, cmp: (string, string) -> int, ghost key: string -> real) returns (count: nat)
    requires Mat(mbs, d) && |mba| == d.insts && h < d.algs
    requires Measures(cmp, key)
    ensures count == Achieved(mbs, mba, key, h, d.insts)
  {
    count := 0;
    for i := 0 to d.insts
      invariant count == Achieved(mbs, mba, key, h, i)
    {
      if cmp(mbs[i][h], mba[i]) == 0 {
        count := count + 1;
      }
    }
  }

  /** `BestAchievedPercentage`: per algorithm, the instances where its
      best over seeds equals the best over algorithms. */
  method BestAchieved(mbs: seq<seq<string>>, mba: seq<string>, d: Dims, cmp: (string, string) -> int, ghost key: string -> real) returns (out: seq<nat>)
    requires Mat(mbs, d) && |mba| == d.insts
    requires Measures(cmp, key)
    ensures |out| == d.algs
    ensures forall h :: 0 <= h < d.algs ==> out[h] == Achieved(mbs, mba, key, h, d.insts)
  {
    out := [];
    for h := 0 to d.algs
      invariant |out| == h
      invariant forall h' :: 0 <= h' < h ==> out[h'] == Achieved(mbs, mba, key, h', d.insts)
    {
      var count := AchievedFor(mbs, mba, d, h, cmp, key);
      out := out + [count];
    }
  }

  /** The count `EarliestBestAchievedPercentage` makes for algorithm h. */
  method EarliestFor(mbs: seq<seq<string>>, tmbs: seq<seq<string>>, mba: seq<string>, tmba: seq<string>, d: Dims, h: nat, cmp: (string, string) -> int, ghost key: string -> real)
    returns (count: nat)
    requires Mat(mbs, d) && Mat(tmbs, d) && |mba| == |tmba| == d.insts && h < d.algs
    requires Measures(cmp, key)
    ensures count == EarliestAchieved(mbs, tmbs, mba, tmba, key, h, d.insts)
  {
    count := 0;
    for i := 0 to d.insts
      invariant count == EarliestAchieved(mbs, tmbs, mba, tmba, key, h, i)
    {
      if cmp(mbs[i][h], mba[i]) == 0 && cmp(tmbs[i][h], tmba[i]) == 0 {
        count := count + 1;
      }
    }
  }

  /** `EarliestBestAchievedPercentage`: as BA, also asking that the time
      of that best equal the time of the overall best. */
  method EarliestBestAchieved(mbs: seq<seq<string>>, tmbs: seq<seq<string>>, mba: seq<string>, tmba: seq<string>, d: Dims, cmp: (string, string) -> int, ghost key: string -> real)
    returns (out: seq<nat>)
    requires Mat(mbs, d) && Mat(tmbs, d) && |mba| == |tmba| == d.insts
    requires Measures(cmp, key)
    ensures |out| == d.algs
    ensures forall h :: 0 <= h < d.algs ==> out[h] == EarliestAchieved(mbs, tmbs, mba, tmba, key, h, d.insts)
  {
    out := [];
    for h := 0 to d.algs
      invariant |out| == h
      invariant forall h' :: 0 <= h' < h ==> out[h'] == EarliestAchieved(mbs, tmbs, mba, tmba, key, h', d.insts)
    {
      var count := EarliestFor(mbs, tmbs, mba, tmba, d, h, cmp, key);
      out := out + [count];
    }
  }

  /** Per algorithm, EBA never exceeds BA, which never exceeds the
      number of instances. */
  lemma {:induction false} AchievedBounds(mbs: seq<seq<string>>, tmbs: seq<seq<string>>, mba: seq<string>, tmba: seq<string>,
                       ba: seq<nat>, eba: seq<nat>, d: Dims, key: string -> real)
    requires |ba| == |eba| == d.algs
    requires forall h :: 0 <= h < d.algs ==>
      ba[h] == Achieved(mbs, mba, key, h, d.insts) && eba[h] == EarliestAchieved(mbs, tmbs, mba, tmba, key, h, d.insts)
    ensures forall h :: 0 <= h < d.algs ==> eba[h] <= ba[h] <= d.insts
  {
    forall h | 0 <= h < d.algs
      ensures eba[h] <= ba[h] <= d.insts
    {
      EarliestWithinAchieved(mbs, tmbs, mba, tmba, key, h, d.insts);
    }
  }

  // ---------------------------------------------------------------------
  // `AvgRank` before its division.

  /** The rank sum `AvgRank` accumulates for algorithm h. */
  method RankFor(values: Table, d: Dims, h: nat, cmp: (string, string) -> int, ghost key: string -> real) returns (ar: nat)
    requires Grid(values, d) && h < d.algs
    requires Measures(cmp, key)
    ensures ar == RankSum(values, d, key, h, d.insts)
  {
    ar := 0;
    for i := 0 to d.insts
      invariant ar == RankSum(values, d, key, h, i)
    {
      for s := 0 to d.seeds
        invariant ar == RankSum(values, d, key, h, i) + SeedRanks(values, d, key, i, h, s)
      {
        var r := CountBetter(Row(values, d, s, i), h, cmp, key);
        ar := ar + 1 + r;
      }
    }
  }

  /** `AvgRank`: per algorithm, its rank summed over instances and seeds. */
  method RankSums(values: Table, d: Dims, cmp: (string, string) -> int, ghost key: string -> real) returns (out: seq<nat>)
    requires Grid(values, d)
    requires Measures(cmp, key)
    ensures |out| == d.algs
    ensures forall h :: 0 <= h < d.algs ==> out[h] == RankSum(values, d, key, h, d.insts)
  {
    out := [];
    for h := 0 to d.algs
      invariant |out| == h
      invariant forall h' :: 0 <= h' < h ==> out[h'] == RankSum(values, d, key, h', d.insts)
    {
      var ar := RankFor(values, d, h, cmp, key);
      out := out + [ar];
    }
  }

  // ---------------------------------------------------------------------
  // `extract` and `extractChamp`.

  /** The instances `extract` writes out: `count` does not exceed the
      threshold, where `count` is the number of algorithms all of whose
      seeds reach the best value of the instance. */
  ghost predicate Difficult(t: Table, d: Dims, key: string -> real, i: nat, level: int)
    requires Grid(t, d) && i < d.insts
  {
    Written(Winners(t, d, key, i, d.algs, Top(t, d, key, i, d.algs)), level, d.algs)
  }

  /** The condition `extractChamp` tests for metric 2 (BA) or 3 (EBA). */
  ghost predicate Champion(metric: nat, mbs: seq<seq<string>>, tmbs: seq<seq<string>>, mba: seq<string>, tmba: seq<string>,
                           key: string -> real, h: nat, i: nat)
  {
    if metric == 2 then Hit(mbs, mba, key, h, i) else EarlyHit(mbs, tmbs, mba, tmba, key, h, i)
  }

  /** The loop of `extract`, over the instances by number: which are
      written out, how many are, and how many are not. */
  method SelectDifficult(t: Table, d: Dims, level: int, cmp: (string, string) -> int, ghost key: string -> real)
    returns (chosen: seq<bool>, nAccepted: nat, nRejected: nat)
    requires Grid(t, d) && Measures(cmp, key)
    ensures |chosen| == d.insts
    ensures forall i :: 0 <= i < d.insts ==> (chosen[i] <==> Difficult(t, d, key, i, level))
    ensures nAccepted == Count((i: nat) => i < d.insts && Difficult(t, d, key, i, level), d.insts)
    ensures nAccepted + nRejected == d.insts
  {
    ghost var p := (i: nat) => i < d.insts && Difficult(t, d, key, i, level);
    chosen, nAccepted, nRejected := [], 0, 0;
    for i := 0 to d.insts
      invariant |chosen| == i
      invariant forall k :: 0 <= k < i ==> (chosen[k] <==> Difficult(t, d, key, k, level))
      invariant nAccepted == Count(p, i) && nAccepted + nRejected == i
    {
      var count := CountWinners(t, d, i, cmp, key);
      var written := Written(count, level, d.algs);
      assert written == p(i);
      if written {
        nAccepted := nAccepted + 1;
      } else {
        nRejected := nRejected + 1;
      }
      chosen := chosen + [written];
    }
  }

  /** The loop of `extractChamp` for algorithm h, over the instances by
      number: which meet the metric's condition, how many do, and how
      many do not. */
  method SelectChampions(metric: nat, mbs: seq<seq<string>>, tmbs: seq<seq<string>>, mba: seq<string>, tmba: seq<string>,
                         d: Dims, h: nat, cmp: (string, string) -> int, ghost key: string -> real)
    returns (chosen: seq<bool>, nAccepted: nat, nRejected: nat)
    requires metric == 2 || metric == 3
    requires Mat(mbs, d) && Mat(tmbs, d) && |mba| == |tmba| == d.insts && h < d.algs
    requires Measures(cmp, key)
    ensures |chosen| == d.insts
    ensures forall i :: 0 <= i < d.insts ==> (chosen[i] <==> Champion(metric, mbs, tmbs, mba, tmba, key, h, i))
    ensures nAccepted == if metric == 2 then Achieved(mbs, mba, key, h, d.insts)
                         else EarliestAchieved(mbs, tmbs, mba, tmba, key, h, d.insts)
    ensures nAccepted + nRejected == d.insts
  {
    chosen, nAccepted, nRejected := [], 0, 0;
    for i := 0 to d.insts
      invariant |chosen| == i
      invariant forall k :: 0 <= k < i ==> (chosen[k] <==> Champion(metric, mbs, tmbs, mba, tmba, key, h, k))
      invariant nAccepted == if metric == 2 then Achieved(mbs, mba, key, h, i)
                             else EarliestAchieved(mbs, tmbs, mba, tmba, key, h, i)
      invariant nAccepted + nRejected == i
    {
      var found;
      if metric == 2 {
        found := cmp(mbs[i][h], mba[i]) == 0;
      } else {
        found := cmp(mbs[i][h], mba[i]) == 0 && cmp(tmbs[i][h], tmba[i]) == 0;
      }
      if found {
        nAccepted := nAccepted + 1;
      } else {
        nRejected := nRejected + 1;
      }
      chosen := chosen + [found];
    }
  }

  /** The names of the instances `extract` writes out are as many as it
      counts. */
  lemma {:induction false} DifficultCount(insts: Registry, t: Table, d: Dims, key: string -> real, level: int, accepted: set<string>)
    requires Dense(insts) && insts.count == d.insts && Grid(t, d)
    requires accepted == set n | n in insts.index && Difficult(t, d, key, insts.index[n], level)
    ensures |accepted| == Count((i: nat) => i < d.insts && Difficult(t, d, key, i, level), d.insts)
  {
    var p := (i: nat) => i < d.insts && Difficult(t, d, key, i, level);
    DenseCount(insts, p);
    assert accepted == set n | n in insts.index && p(insts.index[n]);
    CountIsSet(p, d.insts);
  }

  /** The instance names meeting a metric's condition are as many as BA
      (metric 2) or EBA (metric 3) counts. */
  lemma {:induction false} ChampionCount(metric: nat, insts: Registry, mbs: seq<seq<string>>, tmbs: seq<seq<string>>,
                      mba: seq<string>, tmba: seq<string>, key: string -> real, h: nat, accepted: set<string>)
    requires metric == 2 || metric == 3
    requires Dense(insts)
    requires accepted == set n | n in insts.index && Champion(metric, mbs, tmbs, mba, tmba, key, h, insts.index[n])
    ensures |accepted| == if metric == 2 then Achieved(mbs, mba, key, h, insts.count)
                          else EarliestAchieved(mbs, tmbs, mba, tmba, key, h, insts.count)
  {
    var p := (i: nat) => Champion(metric, mbs, tmbs, mba, tmba, key, h, i);
    DenseCount(insts, p);
    assert accepted == set n | n in insts.index && p(insts.index[n]);
    if metric == 2 {
      AchievedIsSet(mbs, mba, key, h, insts.count);
      assert (set k: nat | k < insts.count && p(k)) == set k: nat | k < insts.count && Hit(mbs, mba, key, h, k);
    } else {
      EarliestAchievedIsSet(mbs, tmbs, mba, tmba, key, h, insts.count);
      assert (set k: nat | k < insts.count && p(k))
        == set k: nat | k < insts.count && EarlyHit(mbs, tmbs, mba, tmba, key, h, k);
    }
  }
}
