/**
  The string-valued aggregation passes of src/tablegenerator.cpp, stated on
  the numbers the strings denote.

  Every comparison in these passes goes through `gte`, which (module
  Decimal) is the sign of the difference of the two numbers. The passes are
  written here for any comparator `cmp` that is the sign of a difference of
  keys (`Measures(cmp, key)`), and specified by functions on the keys; the
  methods are the loops of the source, proved against those functions. The
  table passes use `Compare`, which is `gte` on numerals, with the key
  `Num`, which is the exact value of a numeral.

  The tables are indexed [seed][instance][algorithm]; `Dims` gives the
  numbers of seeds, instances and algorithms the passes iterate over.
*/
module Statistics {

  import opened Decimal
  import opened Ingest

  datatype Dims = Dims(seeds: nat, insts: nat, algs: nat)

  /** `cmp(u, v)` is the sign of key(u) - key(v). */
  ghost predicate Measures(cmp: (string, string) -> int, key: string -> real)
  {
    forall u, v {:trigger cmp(u, v)} :: cmp(u, v) == Sign(key(u) - key(v))
  }

  /** The number a numeral denotes; any other string counts as -1. */
  function Num(s: string): real
  {
    if WellFormed(s) then Value(s) else -1.0
  }

  /** `gte` on numerals, extended to every string by `Num`. */
  function Compare(u: string, v: string): (r: int)
    ensures r == Sign(Num(u) - Num(v))
    ensures WellFormed(u) && WellFormed(v) ==> r == Gte(u, v)
  {
    if WellFormed(u) && WellFormed(v) then Gte(u, v) else Sign(Num(u) - Num(v))
  }

  lemma {:induction false} CompareMeasures()
    ensures Measures(Compare, Num)
  {
  }

  /** The best value `extract` starts from denotes 0. */
  lemma {:induction false} ZeroNum()
    ensures WellFormed("0") && Num("0") == 0.0
  {
    ValueOfInteger("0");
  }

  /** Every cell the passes read exists. */
  predicate Grid(t: Table, d: Dims)
  {
    d.seeds <= |t|
    && (forall s :: 0 <= s < d.seeds ==> d.insts <= |t[s]|)
    && (forall s, i :: 0 <= s < d.seeds && 0 <= i < d.insts ==> d.algs <= |t[s][i]|)
  }

  /** An instances-by-algorithms matrix. */
  predicate Mat(m: seq<seq<string>>, d: Dims)
  {
    |m| == d.insts && forall i :: 0 <= i < d.insts ==> |m[i]| == d.algs
  }

  /** The seeds of one (instance, algorithm) cell, in seed order. */
  function Column(t: Table, d: Dims, i: nat, h: nat): (c: seq<string>)
    requires Grid(t, d) && i < d.insts && h < d.algs
    ensures |c| == d.seeds
    ensures forall s :: 0 <= s < d.seeds ==> c[s] == t[s][i][h]
  {
    seq(d.seeds, s requires 0 <= s < d.seeds => t[s][i][h])
  }

  /** The algorithms of one (seed, instance) cell, in algorithm order. */
  function Row(t: Table, d: Dims, s: nat, i: nat): (r: seq<string>)
    requires Grid(t, d) && s < d.seeds && i < d.insts
    ensures |r| == d.algs
    ensures forall h :: 0 <= h < d.algs ==> r[h] == t[s][i][h]
  {
    seq(d.algs, h requires 0 <= h < d.algs => t[s][i][h])
  }

  // ---------------------------------------------------------------------
  // Best value, earliest time (`MaxBySeeds`, string `MaxByAlg`).

  /** Where the fold "take the next entry if its value is larger, or equal
      with a smaller time" ends after the first n entries: an entry of
      largest value, of smallest time among those, and the first such. */
  ghost function BestIndex(vs: seq<string>, ts: seq<string>, key: string -> real, n: nat): (k: nat)
    requires 1 <= n <= |vs| == |ts|
    ensures k < n
  {
    if n == 1 then 0
    else
      var k := BestIndex(vs, ts, key, n - 1);
      if key(vs[k]) < key(vs[n - 1]) || (key(vs[k]) == key(vs[n - 1]) && key(ts[k]) > key(ts[n - 1])) then n - 1
      else k
  }

  /** The fold's choice has the largest value, the smallest time among
      entries of that value, and every earlier entry loses to it. */
  lemma {:induction false} BestIndexMeaning(vs: seq<string>, ts: seq<string>, key: string -> real, n: nat)
    requires 1 <= n <= |vs| == |ts|
    ensures var k := BestIndex(vs, ts, key, n);
      (forall s :: 0 <= s < n ==> key(vs[s]) <= key(vs[k]))
      && (forall s :: 0 <= s < n && key(vs[s]) == key(vs[k]) ==> key(ts[k]) <= key(ts[s]))
      && (forall s :: 0 <= s < k ==> key(vs[s]) < key(vs[k]) || key(ts[k]) < key(ts[s]))
  {
    if n > 1 {
      BestIndexMeaning(vs, ts, key, n - 1);
    }
  }

  /** The three properties single out one entry: the fold's choice is the
      only entry of largest value, then smallest time, then smallest index. */
  lemma {:induction false} BestIndexUnique(vs: seq<string>, ts: seq<string>, key: string -> real, j: nat)
    requires 1 <= |vs| == |ts| && j < |vs|
    requires forall s :: 0 <= s < |vs| ==> key(vs[s]) <= key(vs[j])
    requires forall s :: 0 <= s < |vs| && key(vs[s]) == key(vs[j]) ==> key(ts[j]) <= key(ts[s])
    requires forall s :: 0 <= s < j ==> key(vs[s]) < key(vs[j]) || key(ts[j]) < key(ts[s])
    ensures j == BestIndex(vs, ts, key, |vs|)
  {
    var k := BestIndex(vs, ts, key, |vs|);
    BestIndexMeaning(vs, ts, key, |vs|);
    assert key(vs[j]) == key(vs[k]);
    assert key(ts[j]) == key(ts[k]);
  }

  /** The fold itself: start from the first entry and replace the current
      value and time as `MaxBySeeds` and `MaxByAlg` do. */
  method PickBest(vs: seq<string>, ts: seq<string>, cmp: (string, string) -> int, ghost key: string -> real)
    returns (v: string, t: string)
    requires 1 <= |vs| == |ts| && Measures(cmp, key)
    ensures v == vs[BestIndex(vs, ts, key, |vs|)] && t == ts[BestIndex(vs, ts, key, |vs|)]
  {
    v, t := vs[0], ts[0];
    ghost var k := 0;
    for j := 1 to |vs|
      invariant k == BestIndex(vs, ts, key, j) && v == vs[k] && t == ts[k]
    {
      if cmp(v, vs[j]) < 0 || (cmp(v, vs[j]) == 0 && cmp(t, ts[j]) > 0) {
        v, t := vs[j], ts[j];
        k := j;
      }
    }
  }

  // ---------------------------------------------------------------------
  // First minimum (`MinBySeeds`), first maximum (`MaxByAlgButOne`).

  /** The first entry of smallest value among the first n. */
  ghost function FirstMin(vs: seq<string>, key: string -> real, n: nat): (k: nat)
    requires 1 <= n <= |vs|
    ensures k < n
  {
    if n == 1 then 0
    else
      var k := FirstMin(vs, key, n - 1);
      if key(vs[k]) > key(vs[n - 1]) then n - 1 else k
  }

  /** `FirstMin` is a minimum, and every earlier entry is strictly larger. */
  lemma {:induction false} FirstMinMeaning(vs: seq<string>, key: string -> real, n: nat)
    requires 1 <= n <= |vs|
    ensures var k := FirstMin(vs, key, n);
      (forall s :: 0 <= s < n ==> key(vs[k]) <= key(vs[s]))
      && (forall s :: 0 <= s < k ==> key(vs[k]) < key(vs[s]))
  {
    if n > 1 {
      FirstMinMeaning(vs, key, n - 1);
    }
  }

  /** The first entry of largest value among the first n. */
  ghost function FirstMax(vs: seq<string>, key: string -> real, n: nat): (k: nat)
    requires 1 <= n <= |vs|
    ensures k < n
  {
    if n == 1 then 0
    else
      var k := FirstMax(vs, key, n - 1);
      if key(vs[k]) < key(vs[n - 1]) then n - 1 else k
  }

  /** `FirstMax` is a maximum, and every earlier entry is strictly smaller. */
  lemma {:induction false} FirstMaxMeaning(vs: seq<string>, key: string -> real, n: nat)
    requires 1 <= n <= |vs|
    ensures var k := FirstMax(vs, key, n);
      (forall s :: 0 <= s < n ==> key(vs[s]) <= key(vs[k]))
      && (forall s :: 0 <= s < k ==> key(vs[s]) < key(vs[k]))
  {
    if n > 1 {
      FirstMaxMeaning(vs, key, n - 1);
    }
  }

  /** `MinBySeeds` on one cell: keep the current value unless a later one is
      strictly smaller. */
  method PickMin(vs: seq<string>, cmp: (string, string) -> int, ghost key: string -> real) returns (v: string)
    requires 1 <= |vs| && Measures(cmp, key)
    ensures v == vs[FirstMin(vs, key, |vs|)]
  {
    v := vs[0];
    ghost var k := 0;
    for j := 1 to |vs|
      invariant k == FirstMin(vs, key, j) && v == vs[k]
    {
      if cmp(v, vs[j]) > 0 {
        v := vs[j];
        k := j;
      }
    }
  }

  /** A row without its entry h. */
  function Without(row: seq<string>, h: nat): (w: seq<string>)
    requires h < |row|
    ensures |w| == |row| - 1
    ensures forall j :: 0 <= j < h ==> w[j] == row[j]
    ensures forall j :: h <= j < |w| ==> w[j] == row[j + 1]
  {
    row[..h] + row[h + 1..]
  }

  /** `MaxByAlgButOne` on one row: the first maximum over the entries other
      than h, scanning the row from the left and stepping over h. */
  method PickMaxWithout(row: seq<string>, h: nat, cmp: (string, string) -> int, ghost key: string -> real)
    returns (v: string)
    requires 2 <= |row| && h < |row| && Measures(cmp, key)
    ensures v == Without(row, h)[FirstMax(Without(row, h), key, |row| - 1)]
  {
    ghost var w := Without(row, h);
    ghost var k := 0;
    var h1;
    if h > 0 {
      v := row[0];
      h1 := 1;
      while h1 < h
        invariant 1 <= h1 <= h && k == FirstMax(w, key, h1) && v == w[k]
      {
        assert row[h1] == w[h1];
        if cmp(v, row[h1]) < 0 {
          v := row[h1];
          k := h1;
        }
        h1 := h1 + 1;
      }
      h1 := h + 1;
    } else {
      v := row[1];
      assert v == w[0];
      h1 := 2;
    }
    while h1 < |row|
      invariant h + 1 <= h1 <= |row| && 2 <= h1 && k == FirstMax(w, key, h1 - 1) && v == w[k]
    {
      assert row[h1] == w[h1 - 1];
      if cmp(v, row[h1]) < 0 {
        v := row[h1];
        k := h1 - 1;
      }
      h1 := h1 + 1;
    }
  }

  /** What `MaxByAlgButOne` yields: an entry of the row other than h, at
      least as large as every entry other than h. */
  lemma {:induction false} MaxWithoutMeaning(row: seq<string>, h: nat, key: string -> real)
    requires 2 <= |row| && h < |row|
    ensures var w := Without(row, h);
      var k := FirstMax(w, key, |w|);
      var at := if k < h then k else k + 1;
      at != h && at < |row| && w[k] == row[at]
      && forall h1 :: 0 <= h1 < |row| && h1 != h ==> key(row[h1]) <= key(w[k])
  {
    var w := Without(row, h);
    var k := FirstMax(w, key, |w|);
    FirstMaxMeaning(w, key, |w|);
    forall h1 | 0 <= h1 < |row| && h1 != h
      ensures key(row[h1]) <= key(w[k])
    {
      var j := if h1 < h then h1 else h1 - 1;
      assert w[j] == row[h1];
      assert key(w[j]) <= key(w[k]);
    }
  }

  // ---------------------------------------------------------------------
  // Best achieved (BA) and earliest best achieved (EBA).

  /** On instance i, algorithm h's best over seeds equals the best over
      algorithms: the condition of BA and of `extractChamp` metric 2. */
  ghost predicate Hit(mbs: seq<seq<string>>, mba: seq<string>, key: string -> real, h: nat, i: nat)
  {
    i < |mbs| && i < |mba| && h < |mbs[i]| && key(mbs[i][h]) == key(mba[i])
  }

  /** `Hit`, and the time of that best equals the time of the overall best:
      the condition of EBA and of `extractChamp` metric 3. */
  ghost predicate EarlyHit(mbs: seq<seq<string>>, tmbs: seq<seq<string>>, mba: seq<string>, tmba: seq<string>,
                           key: string -> real, h: nat, i: nat)
  {
    Hit(mbs, mba, key, h, i) && i < |tmbs| && i < |tmba| && h < |tmbs[i]| && key(tmbs[i][h]) == key(tmba[i])
  }

  /** The number of i < n satisfying p. */
  ghost function Count(p: nat -> bool, n: nat): nat
  {
    if n == 0 then 0 else Count(p, n - 1) + if p(n - 1) then 1 else 0
  }

  /** `Count` is the size of the set it counts. */
  lemma {:induction false} CountIsSet(p: nat -> bool, n: nat)
    ensures Count(p, n) == |set i: nat | i < n && p(i)|
  {
    if n > 0 {
      CountIsSet(p, n - 1);
      var before := set i: nat | i < n - 1 && p(i);
      var now := set i: nat | i < n && p(i);
      if p(n - 1) {
        assert now == before + {n - 1};
      } else {
        assert now == before;
      }
    }
  }

  /** A weaker condition counts at least as many, and never more than n. */
  lemma {:induction false} CountMonotone(p: nat -> bool, q: nat -> bool, n: nat)
    requires forall i: nat :: p(i) ==> q(i)
    ensures Count(p, n) <= Count(q, n) <= n
  {
    if n > 0 {
      CountMonotone(p, q, n - 1);
    }
  }

  /** Instances i < n meeting the BA condition for algorithm h: `BA[h]`
      before its division. */
  ghost function Achieved(mbs: seq<seq<string>>, mba: seq<string>, key: string -> real, h: nat, n: nat): nat
  {
    Count((i: nat) => Hit(mbs, mba, key, h, i), n)
  }

  /** Instances i < n meeting the EBA condition for algorithm h. */
  ghost function EarliestAchieved(mbs: seq<seq<string>>, tmbs: seq<seq<string>>, mba: seq<string>, tmba: seq<string>,
                                  key: string -> real, h: nat, n: nat): nat
  {
    Count((i: nat) => EarlyHit(mbs, tmbs, mba, tmba, key, h, i), n)
  }

  /** EBA counts a subset of what BA counts: EBA(h) <= BA(h) <= instances. */
  lemma {:induction false} EarliestWithinAchieved(mbs: seq<seq<string>>, tmbs: seq<seq<string>>, mba: seq<string>, tmba: seq<string>,
                               key: string -> real, h: nat, n: nat)
    ensures EarliestAchieved(mbs, tmbs, mba, tmba, key, h, n) <= Achieved(mbs, mba, key, h, n) <= n
  {
    CountMonotone((i: nat) => EarlyHit(mbs, tmbs, mba, tmba, key, h, i), (i: nat) => Hit(mbs, mba, key, h, i), n);
  }

  /** The BA count is the size of the set of instances meeting the BA
      condition, which is the set `extractChamp` metric 2 selects. */
  lemma {:induction false} AchievedIsSet(mbs: seq<seq<string>>, mba: seq<string>, key: string -> real, h: nat, n: nat)
    ensures Achieved(mbs, mba, key, h, n) == |set i: nat | i < n && Hit(mbs, mba, key, h, i)|
  {
    var p := (i: nat) => Hit(mbs, mba, key, h, i);
    CountIsSet(p, n);
    assert (set i: nat | i < n && p(i)) == set i: nat | i < n && Hit(mbs, mba, key, h, i);
  }

  /** The EBA count is the size of the set `extractChamp` metric 3 selects. */
  lemma {:induction false} EarliestAchievedIsSet(mbs: seq<seq<string>>, tmbs: seq<seq<string>>, mba: seq<string>, tmba: seq<string>,
                              key: string -> real, h: nat, n: nat)
    ensures EarliestAchieved(mbs, tmbs, mba, tmba, key, h, n)
      == |set i: nat | i < n && EarlyHit(mbs, tmbs, mba, tmba, key, h, i)|
  {
    var p := (i: nat) => EarlyHit(mbs, tmbs, mba, tmba, key, h, i);
    CountIsSet(p, n);
    assert (set i: nat | i < n && p(i)) == set i: nat | i < n && EarlyHit(mbs, tmbs, mba, tmba, key, h, i);
  }

  // ---------------------------------------------------------------------
  // Ranks (`AvgRank`).

  /** Entries h1 < n other than h whose value is strictly larger than h's. */
  ghost function Better(row: seq<string>, key: string -> real, h: nat, n: nat): nat
    requires h < |row| && n <= |row|
  {
    if n == 0 then 0
    else Better(row, key, h, n - 1) + if n - 1 != h && key(row[n - 1]) > key(row[h]) then 1 else 0
  }

  /** The rank 1 + Better lies between 1 and the number of algorithms. */
  lemma {:induction false} RankBounds(row: seq<string>, key: string -> real, h: nat, n: nat)
    requires h < |row| && n <= |row|
    ensures Better(row, key, h, n) <= if h < n then n - 1 else n
  {
    if n > 0 {
      RankBounds(row, key, h, n - 1);
    }
  }

  /** An entry at least as large as every other has rank 1. */
  lemma {:induction false} MaximalRanksFirst(row: seq<string>, key: string -> real, h: nat, n: nat)
    requires h < |row| && n <= |row|
    requires forall h1 :: 0 <= h1 < n ==> key(row[h1]) <= key(row[h])
    ensures Better(row, key, h, n) == 0
  {
    if n > 0 {
      MaximalRanksFirst(row, key, h, n - 1);
    }
  }

  /** The rank counting loop of `AvgRank` for one (instance, seed). */
  method CountBetter(row: seq<string>, h: nat, cmp: (string, string) -> int, ghost key: string -> real) returns (r: nat)
    requires h < |row| && Measures(cmp, key)
    ensures r == Better(row, key, h, |row|)
  {
    r := 0;
    for h1 := 0 to |row|
      invariant r == Better(row, key, h, h1)
    {
      if h1 != h && cmp(row[h1], row[h]) > 0 {
        r := r + 1;
      }
    }
  }

  /** The ranks of algorithm h summed over the seeds s < n of instance i. */
  ghost function SeedRanks(t: Table, d: Dims, key: string -> real, i: nat, h: nat, n: nat): nat
    requires Grid(t, d) && i < d.insts && h < d.algs && n <= d.seeds
  {
    if n == 0 then 0 else SeedRanks(t, d, key, i, h, n - 1) + 1 + Better(Row(t, d, n - 1, i), key, h, d.algs)
  }

  /** The ranks of algorithm h summed over the instances i < n and all
      seeds: `AR[h]` before its division. */
  ghost function RankSum(t: Table, d: Dims, key: string -> real, h: nat, n: nat): nat
    requires Grid(t, d) && h < d.algs && n <= d.insts
  {
    if n == 0 then 0 else RankSum(t, d, key, h, n - 1) + SeedRanks(t, d, key, n - 1, h, d.seeds)
  }

  lemma {:induction false} SeedRanksBounds(t: Table, d: Dims, key: string -> real, i: nat, h: nat, n: nat)
    requires Grid(t, d) && i < d.insts && h < d.algs && n <= d.seeds
    ensures n <= SeedRanks(t, d, key, i, h, n) <= n * d.algs
  {
    if n > 0 {
      SeedRanksBounds(t, d, key, i, h, n - 1);
      RankBounds(Row(t, d, n - 1, i), key, h, d.algs);
      assert (n - 1) * d.algs + d.algs == n * d.algs;
    }
  }

  /** The summed rank of every algorithm lies between seeds * instances
      (rank 1 everywhere) and seeds * instances * algorithms. */
  lemma {:induction false} RankSumBounds(t: Table, d: Dims, key: string -> real, h: nat, n: nat)
    requires Grid(t, d) && h < d.algs && n <= d.insts
    ensures n * d.seeds <= RankSum(t, d, key, h, n) <= n * (d.seeds * d.algs)
  {
    if n > 0 {
      RankSumBounds(t, d, key, h, n - 1);
      SeedRanksBounds(t, d, key, n - 1, h, d.seeds);
      assert (n - 1) * d.seeds + d.seeds == n * d.seeds;
      assert (n - 1) * (d.seeds * d.algs) + d.seeds * d.algs == n * (d.seeds * d.algs);
    }
  }

  /** An algorithm whose value is largest on every (seed, instance) gets
      rank 1 everywhere: its summed rank is seeds * instances. */
  lemma {:induction false} AlwaysBestRanksFirst(t: Table, d: Dims, key: string -> real, h: nat, n: nat)
    requires Grid(t, d) && h < d.algs && n <= d.insts
    requires forall s, i, h1 :: 0 <= s < d.seeds && 0 <= i < d.insts && 0 <= h1 < d.algs ==>
      key(t[s][i][h1]) <= key(t[s][i][h])
    ensures RankSum(t, d, key, h, n) == n * d.seeds
  {
    if n > 0 {
      AlwaysBestRanksFirst(t, d, key, h, n - 1);
      SeedRanksFirst(t, d, key, n - 1, h, d.seeds);
      assert (n - 1) * d.seeds + d.seeds == n * d.seeds;
    }
  }

  lemma {:induction false} SeedRanksFirst(t: Table, d: Dims, key: string -> real, i: nat, h: nat, n: nat)
    requires Grid(t, d) && i < d.insts && h < d.algs && n <= d.seeds
    requires forall s, h1 :: 0 <= s < d.seeds && 0 <= h1 < d.algs ==> key(t[s][i][h1]) <= key(t[s][i][h])
    ensures SeedRanks(t, d, key, i, h, n) == n
  {
    if n > 0 {
      SeedRanksFirst(t, d, key, i, h, n - 1);
      MaximalRanksFirst(Row(t, d, n - 1, i), key, h, d.algs);
    }
  }

  // ---------------------------------------------------------------------
  // Difficult instances (`extract`).

  function Max(a: real, b: real): real
  {
    if a < b then b else a
  }

  /** The largest of key("0") and the first n seeds of algorithm h on
      instance i. */
  ghost function SeedMax(t: Table, d: Dims, key: string -> real, i: nat, h: nat, n: nat): real
    requires Grid(t, d) && i < d.insts && h < d.algs && n <= d.seeds
  {
    if n == 0 then key("0") else Max(SeedMax(t, d, key, i, h, n - 1), key(t[n - 1][i][h]))
  }

  /** The largest of key("0") and every seed of the first n algorithms on
      instance i: the best value `extract` ends with. */
  ghost function Top(t: Table, d: Dims, key: string -> real, i: nat, n: nat): real
    requires Grid(t, d) && i < d.insts && n <= d.algs
  {
    if n == 0 then key("0") else Max(Top(t, d, key, i, n - 1), SeedMax(t, d, key, i, n - 1, d.seeds))
  }

  /** Seeds s < n of algorithm h on instance i whose value is m. */
  ghost function Matches(t: Table, d: Dims, key: string -> real, i: nat, h: nat, n: nat, m: real): nat
    requires Grid(t, d) && i < d.insts && h < d.algs && n <= d.seeds
  {
    if n == 0 then 0 else Matches(t, d, key, i, h, n - 1, m) + if key(t[n - 1][i][h]) == m then 1 else 0
  }

  /** Every seed of algorithm h on instance i has value m. */
  ghost predicate AllAt(t: Table, d: Dims, key: string -> real, i: nat, h: nat, m: real)
    requires Grid(t, d) && i < d.insts && h < d.algs
  {
    forall s :: 0 <= s < d.seeds ==> key(t[s][i][h]) == m
  }

  /** Algorithms h < n all of whose seeds have value m on instance i. */
  ghost function Winners(t: Table, d: Dims, key: string -> real, i: nat, n: nat, m: real): nat
    requires Grid(t, d) && i < d.insts && n <= d.algs
  {
    if n == 0 then 0 else Winners(t, d, key, i, n - 1, m) + if AllAt(t, d, key, i, n - 1, m) then 1 else 0
  }

  lemma {:induction false} SeedMaxBounds(t: Table, d: Dims, key: string -> real, i: nat, h: nat, n: nat)
    requires Grid(t, d) && i < d.insts && h < d.algs && n <= d.seeds
    ensures key("0") <= SeedMax(t, d, key, i, h, n)
    ensures forall s :: 0 <= s < n ==> key(t[s][i][h]) <= SeedMax(t, d, key, i, h, n)
  {
    if n > 0 {
      SeedMaxBounds(t, d, key, i, h, n - 1);
    }
  }

  lemma {:induction false} TopFloor(t: Table, d: Dims, key: string -> real, i: nat, n: nat)
    requires Grid(t, d) && i < d.insts && n <= d.algs
    ensures key("0") <= Top(t, d, key, i, n)
  {
    if n > 0 {
      TopFloor(t, d, key, i, n - 1);
    }
  }

  /** Every value of the instance is at most the final best. */
  lemma {:induction false} TopBounds(t: Table, d: Dims, key: string -> real, i: nat, n: nat)
    requires Grid(t, d) && i < d.insts && n <= d.algs
    ensures key("0") <= Top(t, d, key, i, n)
    ensures forall h, s :: 0 <= h < n && 0 <= s < d.seeds ==> key(t[s][i][h]) <= Top(t, d, key, i, n)
  {
    if n > 0 {
      TopBounds(t, d, key, i, n - 1);
      SeedMaxBounds(t, d, key, i, n - 1, d.seeds);
    }
  }

  /** The final best is attained by some value of the instance, unless it
      is the starting value "0". */
  lemma {:induction false} TopAttained(t: Table, d: Dims, key: string -> real, i: nat, n: nat)
    requires Grid(t, d) && i < d.insts && n <= d.algs
    ensures Top(t, d, key, i, n) == key("0")
      || exists h, s :: 0 <= h < n && 0 <= s < d.seeds && key(t[s][i][h]) == Top(t, d, key, i, n)
  {
    if n > 0 {
      TopAttained(t, d, key, i, n - 1);
      SeedMaxAttained(t, d, key, i, n - 1, d.seeds);
    }
  }

  lemma {:induction false} SeedMaxAttained(t: Table, d: Dims, key: string -> real, i: nat, h: nat, n: nat)
    requires Grid(t, d) && i < d.insts && h < d.algs && n <= d.seeds
    ensures SeedMax(t, d, key, i, h, n) == key("0")
      || exists s :: 0 <= s < n && key(t[s][i][h]) == SeedMax(t, d, key, i, h, n)
  {
    if n > 0 {
      SeedMaxAttained(t, d, key, i, h, n - 1);
    }
  }

  /** No seed before n matches a value above their maximum. */
  lemma {:induction false} MatchesNone(t: Table, d: Dims, key: string -> real, i: nat, h: nat, n: nat, m: real)
    requires Grid(t, d) && i < d.insts && h < d.algs && n <= d.seeds
    requires SeedMax(t, d, key, i, h, n) < m
    ensures Matches(t, d, key, i, h, n, m) == 0
  {
    if n > 0 {
      MatchesNone(t, d, key, i, h, n - 1, m);
    }
  }

  /** No algorithm before n has all its seeds at a value above the best so
      far (when there is at least one seed). */
  lemma {:induction false} WinnersNone(t: Table, d: Dims, key: string -> real, i: nat, n: nat, m: real)
    requires Grid(t, d) && i < d.insts && n <= d.algs && 1 <= d.seeds
    requires Top(t, d, key, i, n) < m
    ensures Winners(t, d, key, i, n, m) == 0
  {
    if n > 0 {
      WinnersNone(t, d, key, i, n - 1, m);
      SeedMaxBounds(t, d, key, i, n - 1, d.seeds);
      assert key(t[0][i][n - 1]) != m;
    }
  }

  /** All seeds match exactly when the count of matches is the number of
      seeds. */
  lemma {:induction false} MatchesAll(t: Table, d: Dims, key: string -> real, i: nat, h: nat, n: nat, m: real)
    requires Grid(t, d) && i < d.insts && h < d.algs && n <= d.seeds
    ensures Matches(t, d, key, i, h, n, m) <= n
    ensures Matches(t, d, key, i, h, n, m) == n <==> forall s :: 0 <= s < n ==> key(t[s][i][h]) == m
  {
    if n > 0 {
      MatchesAll(t, d, key, i, h, n - 1, m);
    }
  }

  /** The loops of `extract` for one instance: `best` starts at "0"; a
      larger value becomes the best and restarts both counts; `count`
      ends as the number of algorithms all of whose seeds equal the final
      best, the largest of 0 and all values of the instance. */
  method CountWinners(t: Table, d: Dims, i: nat, cmp: (string, string) -> int, ghost key: string -> real) returns (count: nat)
    requires Grid(t, d) && i < d.insts && Measures(cmp, key)
    ensures count == Winners(t, d, key, i, d.algs, Top(t, d, key, i, d.algs))
  {
    var best := "0";
    count := 0;
    for h := 0 to d.algs
      invariant key(best) == Top(t, d, key, i, h)
      invariant count == Winners(t, d, key, i, h, key(best))
    {
      var localCount := 0;
      TopFloor(t, d, key, i, h);
      for s := 0 to d.seeds
        invariant key(best) == Max(Top(t, d, key, i, h), SeedMax(t, d, key, i, h, s))
        invariant localCount == Matches(t, d, key, i, h, s, key(best))
        invariant count == Winners(t, d, key, i, h, key(best))
      {
        var value := t[s][i][h];
        var c := cmp(best, value);
        if c == 0 {
          localCount := localCount + 1;
        } else if c < 0 {
          MatchesNone(t, d, key, i, h, s, key(value));
          WinnersNone(t, d, key, i, h, key(value));
          count := 0;
          localCount := 1;
          best := value;
        }
      }
      MatchesAll(t, d, key, i, h, d.seeds, key(best));
      if localCount == d.seeds {
        count := count + 1;
      }
    }
  }

  /** `extract` writes an instance unless its count exceeds the threshold:
      half the number of algorithms when the level is negative, the level
      otherwise. */
  function Written(count: nat, level: int, algs: nat): (w: bool)
    ensures w <==> if level < 0 then 2 * count <= algs else count <= level
  {
    var threshold: real := if level < 0 then algs as real / 2.0 else level as real;
    !(count as real > threshold)
  }

  // ---------------------------------------------------------------------
  // The sort comparator `compare_couple`.

  datatype Couple = Couple(criteria: real, criteria2: real, index: nat)

  /** Whether c1 goes before c2: larger criteria first, then larger second
      criteria, then smaller index. */
  function CompareCouple(c1: Couple, c2: Couple): bool
  {
    if c2.criteria < c1.criteria then true
    else if c2.criteria > c1.criteria then false
    else if c2.criteria2 < c1.criteria2 then true
    else if c2.criteria2 > c1.criteria2 then false
    else c2.index > c1.index
  }

  /** The comparator is the lexicographic order on (criteria descending,
      criteria2 descending, index ascending). */
  lemma {:induction false} CompareLexicographic(c1: Couple, c2: Couple)
    ensures CompareCouple(c1, c2) <==>
      c1.criteria > c2.criteria
      || (c1.criteria == c2.criteria && c1.criteria2 > c2.criteria2)
      || (c1.criteria == c2.criteria && c1.criteria2 == c2.criteria2 && c1.index < c2.index)
  {
  }

  /** A strict order: irreflexive, asymmetric and transitive. */
  lemma {:induction false} CompareStrict(c1: Couple, c2: Couple, c3: Couple)
    ensures !CompareCouple(c1, c1)
    ensures CompareCouple(c1, c2) ==> !CompareCouple(c2, c1)
    ensures CompareCouple(c1, c2) && CompareCouple(c2, c3) ==> CompareCouple(c1, c3)
  {
  }

  /** Couples with distinct indices are always ordered one way or the
      other, so sorting by it is deterministic. */
  lemma {:induction false} CompareTotal(c1: Couple, c2: Couple)
    requires c1.index != c2.index
    ensures CompareCouple(c1, c2) || CompareCouple(c2, c1)
  {
  }
}
