/**
  The `tablegenerator` object of src/tablegenerator.cpp: the name
  registries, the string tables read from the results log, and the
  statistics computed from them, with the methods that fill them.

  Every comparison of two values or times goes through `Compare`, which
  is `gte` on numerals; the contracts are stated with `Num`, the number a
  numeral denotes, and the specification functions of module Statistics.
*/
module TableGen {

  import opened Strings
  import opened Registry
  import opened Ingest
  import opened Statistics
  import opened Passes
  import opened Wrappers

  /** The records of a results log: every line after the header. */
  function Records(lines: seq<string>): (rows: seq<string>)
    ensures |lines| > 0 ==> |rows| == |lines| - 1 && forall k :: 0 <= k < |rows| ==> rows[k] == lines[k + 1]
    ensures |lines| == 0 ==> rows == []
  {
    if |lines| == 0 then [] else lines[1..]
  }

  /** The field loop of `read_results_file` for one record: the record
      is extended with its delimiter and cut at each delimiter in turn;
      each field goes through the switch on its position; the loop ends
      at the end of the record, after the history field, or as soon as
      the record is skipped. */
  method ReadRecord(cfg: Config, b: Books, row: string, within: (string, string) -> bool) returns (rec: Record)
    ensures rec == Fields(cfg, b, Split(row, ','), within)
  {
    ghost var tk := Split(row, ',');
    SplitTerminated(row, ',');
    var line := row + ",";
    var ind := 0;
    rec := Fresh(b);
    while Find(line, ',') < |line|
      invariant ind <= |tk| && ind < 8 && !rec.skip
      invariant Split(line, ',') == tk[ind..] + [""]
      invariant rec == Fields(cfg, b, tk[..ind], within)
      decreases |line|
    {
      var pos := Find(line, ',');
      var token := line[..pos];
      NextField(tk[ind..], line, pos);
      assert tk[ind..][0] == tk[ind] && tk[ind..][1..] == tk[ind + 1..];
      FieldStep(cfg, b, tk, ind, within);
      line := line[pos + 1..];
      var doBreak := ind == 7;
      rec := Digest(cfg, rec, ind, token, within);
      ind := ind + 1;
      if rec.skip || doBreak {
        FieldsDone(cfg, b, tk, ind, within);
        return;
      }
    }
    LastField(tk, ind, line);
    FieldsDone(cfg, b, tk, ind, within);
  }

  /** Digesting field `ind` extends the reading of the first `ind`
      fields by one; only the name fields can make a record skipped. */
  lemma {:induction false} FieldStep(cfg: Config, b: Books, tk: seq<string>, ind: nat, within: (string, string) -> bool)
    requires ind < |tk| && ind < 8 && !Fields(cfg, b, tk[..ind], within).skip
    ensures Digest(cfg, Fields(cfg, b, tk[..ind], within), ind, tk[ind], within) == Fields(cfg, b, tk[..ind + 1], within)
    ensures Fields(cfg, b, tk[..ind + 1], within).skip ==> 1 <= ind
  {
    DigestStep(cfg, b, tk, ind, within);
    if ind == 0 {
      FirstFieldKeeps(cfg, b, tk, within);
    }
  }

  /** The text before the first delimiter is the first field. */
  lemma {:induction false} NextField(ts: seq<string>, line: string, pos: nat)
    requires Split(line, ',') == ts + [""] && pos == Find(line, ',') < |line|
    ensures |ts| >= 1 && line[..pos] == ts[0]
    ensures Split(line[pos + 1..], ',') == ts[1..] + [""]
  {
    SplitAt(line, ',', pos);
    ConsTail(ts, line[..pos], Split(line[pos + 1..], ','));
  }

  /** Taking the head off a list of fields that ends in an empty one. */
  lemma {:induction false} ConsTail(ts: seq<string>, x: string, rest: seq<string>)
    requires [x] + rest == ts + [""] && |rest| >= 1
    ensures |ts| >= 1 && x == ts[0] && rest == ts[1..] + [""]
  {
    var all := ts + [""];
    assert |all| == 1 + |rest|;
    assert |ts| >= 1;
    assert all[0] == x;
    assert all[0] == ts[0];
    assert all[1..] == rest;
    assert all[1..] == ts[1..] + [""];
  }

  /** The time stamp never causes a skip. */
  lemma {:induction false} FirstFieldKeeps(cfg: Config, b: Books, tk: seq<string>, within: (string, string) -> bool)
    requires |tk| >= 1
    ensures !Fields(cfg, b, tk[..1], within).skip
  {
  }

  /** The field loop ends when no delimiter is left, which is after the
      last field. */
  lemma {:induction false} LastField(tk: seq<string>, ind: nat, line: string)
    requires ind <= |tk| && Split(line, ',') == tk[ind..] + [""] && Find(line, ',') == |line|
    ensures ind == |tk|
  {
    assert Split(line, ',') == [line];
  }

  /** The record loop of `read_results_file`: every record is read and,
      unless skipped, its value and time are stored under its key. */
  method ReadRecords(cfg: Config, st0: State, rows: seq<string>, within: (string, string) -> bool) returns (st: State)
    requires Ready(cfg, st0.books)
    requires forall k :: 0 <= k < |rows| ==> Readable(cfg, st0.books, rows[k])
    ensures st == Ingest.Ingest(cfg, st0, rows, within)
  {
    var b, values, times := st0.books, st0.values, st0.times;
    for k := 0 to |rows|
      invariant Ready(cfg, b)
      invariant (cfg.instSome ==> b.insts == st0.books.insts) && (cfg.algSome ==> b.algs == st0.books.algs)
      invariant State(b, values, times) == Ingest.Ingest(cfg, st0, rows[..k], within)
    {
      assert rows[..k + 1][..k] == rows[..k] && rows[..k + 1][k] == rows[k];
      var rec := ReadRecord(cfg, b, rows[k], within);
      SkippedIffUnlisted(cfg, b, Split(rows[k], ','), within);
      FieldsReady(cfg, b, Split(rows[k], ','), within);
      b := rec.books;
      if !rec.skip {
        values := Put(cfg, values, rec.seed, rec.inst, rec.algo, rec.value);
        times := Put(cfg, times, rec.seed, rec.inst, rec.algo, rec.time);
      }
    }
    assert rows[..|rows|] == rows;
    st := State(b, values, times);
  }

  /** `read_results_file` on values: the header line is skipped, every
      record is read, and `ok` says whether every listed name was used. */
  method ReadLog(cfg: Config, st0: State, lines: seq<string>, within: (string, string) -> bool) returns (st: State, ok: bool)
    requires Ready(cfg, st0.books)
    requires forall k :: 0 <= k < |Records(lines)| ==> Readable(cfg, st0.books, Records(lines)[k])
    ensures st == Ingest.Ingest(cfg, st0, Records(lines), within) && Ready(cfg, st.books)
    ensures ok <==> AllUsed(cfg, st.books)
  {
    st := ReadRecords(cfg, st0, Records(lines), within);
    ok := true;
    if cfg.instSome {
      ok := AllIn(st.books.usedInst, cfg.ninstances);
    }
    if cfg.algSome {
      var used := AllIn(st.books.usedAlg, cfg.nalgorithms);
      ok := ok && used;
    }
  }

  /** The check after reading the log that every listed name was used. */
  method AllIn(used: set<nat>, n: nat) returns (all: bool)
    ensures all <==> forall j :: 0 <= j < n ==> j in used
  {
    all := true;
    for j := 0 to n
      invariant all <==> forall k :: 0 <= k < j ==> k in used
    {
      if j !in used {
        all := false;
      }
    }
  }

  class TableGenerator {

    /** `instance_set == "some_instances"`, `algorithm_set == "some_algorithms"`. */
    const instSome: bool
    const algSome: bool

    var insts: Registry
    var algs: Registry
    var seeds: Registry
    var ninstances: nat
    var nalgorithms: nat
    var nSeeds: nat

    /** `resultsdata_str` and `resultstime`. */
    var values: Table
    var times: Table

    /** `MaxBySeeds_mat`, `TimeMaxBySeeds_mat`, `MinBySeeds_mat`,
        `MaxByAlgButOne_MaxBySeeds_mat`: instances by algorithms. */
    var maxBySeeds: seq<seq<string>>
    var timeMaxBySeeds: seq<seq<string>>
    var minBySeeds: seq<seq<string>>
    var maxByAlgButOne: seq<seq<string>>

    /** `MaxByAlg_MaxBySeeds_vect`, `TimeMaxByAlg_MaxBySeeds_vect`. */
    var maxByAlg: seq<string>
    var timeMaxByAlg: seq<string>

    /** `BA`, `EBA` and `AR` in absolute form (before any division). */
    var ba: seq<nat>
    var eba: seq<nat>
    var rankSum: seq<nat>

    constructor (instSome: bool, algSome: bool)
      ensures this.instSome == instSome && this.algSome == algSome
      ensures insts == Empty && algs == Empty && seeds == Empty
      ensures ninstances == 0 && nalgorithms == 0 && nSeeds == 0
      ensures values == [] && times == []
    {
      this.instSome := instSome;
      this.algSome := algSome;
      insts, algs, seeds := Empty, Empty, Empty;
      ninstances, nalgorithms, nSeeds := 0, 0, 0;
      values, times := [], [];
      maxBySeeds, timeMaxBySeeds, minBySeeds, maxByAlgButOne := [], [], [], [];
      maxByAlg, timeMaxByAlg := [], [];
      ba, eba, rankSum := [], [], [];
    }

    function D(): Dims
      reads this`nSeeds, this`ninstances, this`nalgorithms
    {
      Dims(nSeeds, ninstances, nalgorithms)
    }

    function Cfg(): Config
      reads this`ninstances, this`nalgorithms
    {
      Config(instSome, algSome, ninstances, nalgorithms)
    }

    /** The registries as the inclusion lists left them: a list-restricted
        registry is dense and as long as its list, the others are empty. */
    ghost predicate Prepared()
      reads this`insts, this`algs, this`seeds, this`ninstances, this`nalgorithms
    {
      (if instSome then Dense(insts) && insts.count == ninstances else insts == Empty)
      && (if algSome then Dense(algs) && algs.count == nalgorithms else algs == Empty)
      && seeds == Empty
    }

    /** After reading the log: dense registries whose sizes are the counts. */
    ghost predicate Loaded()
      reads this`insts, this`algs, this`seeds, this`ninstances, this`nalgorithms, this`nSeeds
    {
      Dense(insts) && Dense(algs) && Dense(seeds)
      && insts.count == ninstances && algs.count == nalgorithms && seeds.count == nSeeds
    }

    /** Reading the log starts from the registries, no used names, no
        skipped records, and the tables as they are. */
    function Start(): State
      reads this`insts, this`algs, this`seeds, this`values, this`times
    {
      State(Books(insts, algs, seeds, {}, {}, 0, 0), values, times)
    }

    // -------------------------------------------------------------------
    // Reading the inclusion lists and the log.

    /** `read_selected_instances`: with an instance inclusion list, the
        registry of the listed names and their number. */
    method ReadSelectedInstances(lines: seq<string>)
      modifies this`insts, this`ninstances
      requires insts == Empty
      ensures instSome ==> insts == ReadList(lines) && ninstances == insts.count
      ensures !instSome ==> insts == old(insts) && ninstances == old(ninstances)
    {
      if !instSome {
        return;
      }
      for j := 0 to |lines|
        invariant insts == ReadList(lines[..j])
      {
        assert lines[..j + 1][..j] == lines[..j];
        var line := TrimErase(lines[j]);
        if line == "" || line[0] == '#' {
          continue;
        }
        var pos := Find(line, '\r');
        var token := line[..pos];
        insts := Register(insts, token);
      }
      assert lines[..|lines|] == lines;
      ninstances := insts.count;
    }

    /** `read_selected_algorithms`: the same for algorithms. */
    method ReadSelectedAlgorithms(lines: seq<string>)
      modifies this`algs, this`nalgorithms
      requires algs == Empty
      ensures algSome ==> algs == ReadList(lines) && nalgorithms == algs.count
      ensures !algSome ==> algs == old(algs) && nalgorithms == old(nalgorithms)
    {
      if !algSome {
        return;
      }
      for j := 0 to |lines|
        invariant algs == ReadList(lines[..j])
      {
        assert lines[..j + 1][..j] == lines[..j];
        var line := TrimErase(lines[j]);
        if line == "" || line[0] == '#' {
          continue;
        }
        var pos := Find(line, '\r');
        var token := line[..pos];
        algs := Register(algs, token);
      }
      assert lines[..|lines|] == lines;
      nalgorithms := algs.count;
    }

    /** `read_results_file`: the header line is skipped; every record is
        read and, unless skipped, its value and time are stored under its
        key; then the counts are set and, with an inclusion list, `ok`
        says whether every listed name was used (the source aborts
        otherwise). */
    method ReadResultsFile(lines: seq<string>, within: (string, string) -> bool)
      returns (ok: bool, skippedInst: nat, skippedAlg: nat, ghost st: State)
      modifies this`insts, this`algs, this`seeds, this`values, this`times
      modifies this`ninstances, this`nalgorithms, this`nSeeds
      requires Prepared()
      requires forall k :: 0 <= k < |Records(lines)| ==> Readable(Cfg(), Start().books, Records(lines)[k])
      ensures old(Ready(Cfg(), Start().books)) && st == old(Ingest.Ingest(Cfg(), Start(), Records(lines), within))
      ensures insts == st.books.insts && algs == st.books.algs && seeds == st.books.seeds
      ensures values == st.values && times == st.times
      ensures skippedInst == st.books.skippedInst && skippedAlg == st.books.skippedAlg
      ensures ok <==> old(AllUsed(Cfg(), st.books))
      ensures instSome ==> ninstances == old(ninstances)
      ensures algSome ==> nalgorithms == old(nalgorithms)
      ensures Loaded()
    {
      var cfg := Cfg();
      EmptyDense();
      var read;
      read, ok := ReadLog(cfg, Start(), lines, within);
      st := read;
      var b := read.books;
      var ni := if instSome then ninstances else b.insts.count;
      var na := if algSome then nalgorithms else b.algs.count;
      Store(b, read.values, read.times, ni, na);
      skippedInst, skippedAlg := b.skippedInst, b.skippedAlg;
    }

    /** The state `read_results_file` leaves: the registries and tables it
        filled and the counts it set. */
    method Store(b: Books, vs: Table, ts: Table, ni: nat, na: nat)
      modifies this`insts, this`algs, this`seeds, this`values, this`times
      modifies this`ninstances, this`nalgorithms, this`nSeeds
      ensures insts == b.insts && algs == b.algs && seeds == b.seeds && values == vs && times == ts
      ensures ninstances == ni && nalgorithms == na && nSeeds == b.seeds.count
    {
      insts, algs, seeds, values, times := b.insts, b.algs, b.seeds, vs, ts;
      ninstances, nalgorithms, nSeeds := ni, na, b.seeds.count;
    }

    // -------------------------------------------------------------------
    // Statistics.

    /** `MaxBySeeds`: for every (instance, algorithm), the best value over
        the seeds, ties going to the earlier time, and its time. */
    method MaxBySeeds()
      modifies this`maxBySeeds, this`timeMaxBySeeds
      requires Grid(values, D()) && Grid(times, D()) && 1 <= nSeeds
      ensures Mat(maxBySeeds, D()) && Mat(timeMaxBySeeds, D())
      ensures forall i, h :: 0 <= i < ninstances && 0 <= h < nalgorithms ==>
        (maxBySeeds[i][h], timeMaxBySeeds[i][h]) == BestCell(values, times, D(), Num, i, h)
    {
      CompareMeasures();
      maxBySeeds, timeMaxBySeeds := BestBySeeds(values, times, D(), Compare, Num);
    }

    /** `MinBySeeds`: for every (instance, algorithm), the first smallest
        value over the seeds. */
    method MinBySeeds()
      modifies this`minBySeeds
      requires Grid(values, D()) && 1 <= nSeeds
      ensures Mat(minBySeeds, D())
      ensures forall i, h :: 0 <= i < ninstances && 0 <= h < nalgorithms ==>
        minBySeeds[i][h] == LeastCell(values, D(), Num, i, h)
    {
      CompareMeasures();
      minBySeeds := LeastBySeeds(values, D(), Compare, Num);
    }

    /** String `MaxByAlg` on the best-over-seeds matrix: for every
        instance, the best value over the algorithms, ties going to the
        earlier time, and its time. */
    method MaxByAlg()
      modifies this`maxByAlg, this`timeMaxByAlg
      requires Mat(maxBySeeds, D()) && Mat(timeMaxBySeeds, D()) && 1 <= nalgorithms
      ensures |maxByAlg| == |timeMaxByAlg| == ninstances
      ensures forall i :: 0 <= i < ninstances ==>
        var k := BestIndex(maxBySeeds[i], timeMaxBySeeds[i], Num, nalgorithms);
        maxByAlg[i] == maxBySeeds[i][k] && timeMaxByAlg[i] == timeMaxBySeeds[i][k]
    {
      CompareMeasures();
      maxByAlg, timeMaxByAlg := BestByAlg(maxBySeeds, timeMaxBySeeds, D(), Compare, Num);
    }

    /** String `MaxByAlgButOne` on the best-over-seeds matrix: for every
        (instance, algorithm h), the first largest value among the other
        algorithms. */
    method MaxByAlgButOne()
      modifies this`maxByAlgButOne
      requires Mat(maxBySeeds, D()) && 2 <= nalgorithms
      ensures Mat(maxByAlgButOne, D())
      ensures forall i, h :: 0 <= i < ninstances && 0 <= h < nalgorithms ==>
        maxByAlgButOne[i][h] == OthersBest(maxBySeeds[i], Num, h)
    {
      CompareMeasures();
      maxByAlgButOne := BestOfOthers(maxBySeeds, D(), Compare, Num);
    }

    /** `BestAchievedPercentage` before its division: for every algorithm,
        the number of instances where its best over seeds equals the best
        over algorithms. */
    method BestAchieved()
      modifies this`ba
      requires Mat(maxBySeeds, D()) && |maxByAlg| == ninstances
      ensures |ba| == nalgorithms
      ensures forall h :: 0 <= h < nalgorithms ==> ba[h] == Achieved(maxBySeeds, maxByAlg, Num, h, ninstances)
    {
      CompareMeasures();
      ba := Passes.BestAchieved(maxBySeeds, maxByAlg, D(), Compare, Num);
    }

    /** `EarliestBestAchievedPercentage` before its division: as BA, also
        requiring the time of that best to equal the time of the overall
        best. */
    method EarliestBestAchieved()
      modifies this`eba
      requires Mat(maxBySeeds, D()) && Mat(timeMaxBySeeds, D())
      requires |maxByAlg| == |timeMaxByAlg| == ninstances
      ensures |eba| == nalgorithms
      ensures forall h :: 0 <= h < nalgorithms ==>
        eba[h] == EarliestAchieved(maxBySeeds, timeMaxBySeeds, maxByAlg, timeMaxByAlg, Num, h, ninstances)
    {
      CompareMeasures();
      eba := Passes.EarliestBestAchieved(maxBySeeds, timeMaxBySeeds, maxByAlg, timeMaxByAlg, D(), Compare, Num);
    }

    /** `AvgRank` before its division: for every algorithm, its rank summed
        over all instances and seeds. */
    method AvgRank()
      modifies this`rankSum
      requires Grid(values, D())
      ensures |rankSum| == nalgorithms
      ensures forall h :: 0 <= h < nalgorithms ==> rankSum[h] == RankSum(values, D(), Num, h, ninstances)
    {
      CompareMeasures();
      rankSum := RankSums(values, D(), Compare, Num);
    }

    /** `ComputeStatistics`, restricted to the string-valued passes, in the
        source's order: each pass as the method of that name computes it,
        on the tables as they stand. */
    method ComputeStatistics()
      modifies this`maxBySeeds, this`timeMaxBySeeds, this`minBySeeds, this`maxByAlgButOne
      modifies this`maxByAlg, this`timeMaxByAlg, this`ba, this`eba, this`rankSum
      requires Grid(values, D()) && Grid(times, D()) && 1 <= nSeeds && 2 <= nalgorithms
      ensures Mat(maxBySeeds, D()) && Mat(timeMaxBySeeds, D()) && Mat(minBySeeds, D()) && Mat(maxByAlgButOne, D())
      ensures |maxByAlg| == |timeMaxByAlg| == ninstances
      ensures |ba| == |eba| == |rankSum| == nalgorithms
      ensures forall i, h :: 0 <= i < ninstances && 0 <= h < nalgorithms ==>
        (maxBySeeds[i][h], timeMaxBySeeds[i][h]) == BestCell(values, times, D(), Num, i, h)
      ensures forall i, h :: 0 <= i < ninstances && 0 <= h < nalgorithms ==>
        minBySeeds[i][h] == LeastCell(values, D(), Num, i, h)
      ensures forall i :: 0 <= i < ninstances ==>
        var k := BestIndex(maxBySeeds[i], timeMaxBySeeds[i], Num, nalgorithms);
        maxByAlg[i] == maxBySeeds[i][k] && timeMaxByAlg[i] == timeMaxBySeeds[i][k]
      ensures forall i, h :: 0 <= i < ninstances && 0 <= h < nalgorithms ==>
        maxByAlgButOne[i][h] == OthersBest(maxBySeeds[i], Num, h)
      ensures forall h :: 0 <= h < nalgorithms ==>
        ba[h] == Achieved(maxBySeeds, maxByAlg, Num, h, ninstances)
        && eba[h] == EarliestAchieved(maxBySeeds, timeMaxBySeeds, maxByAlg, timeMaxByAlg, Num, h, ninstances)
        && eba[h] <= ba[h] <= ninstances
      ensures forall h :: 0 <= h < nalgorithms ==> rankSum[h] == RankSum(values, D(), Num, h, ninstances)
    {
      CompareMeasures();
      var d := D();
      var mbs, tmbs := BestBySeeds(values, times, d, Compare, Num);
      var mba, tmba := BestByAlg(mbs, tmbs, d, Compare, Num);
      var b := Passes.BestAchieved(mbs, mba, d, Compare, Num);
      var e := Passes.EarliestBestAchieved(mbs, tmbs, mba, tmba, d, Compare, Num);
      var others := BestOfOthers(mbs, d, Compare, Num);
      var least := LeastBySeeds(values, d, Compare, Num);
      var ranks := RankSums(values, d, Compare, Num);
      AchievedBounds(mbs, tmbs, mba, tmba, b, e, d, Num);
      SetStatistics(mbs, tmbs, least, others, mba, tmba, b, e, ranks);
    }

    /** The statistics fields as `ComputeStatistics` leaves them. */
    method SetStatistics(mbs: seq<seq<string>>, tmbs: seq<seq<string>>, least: seq<seq<string>>, others: seq<seq<string>>,
                         mba: seq<string>, tmba: seq<string>, b: seq<nat>, e: seq<nat>, ranks: seq<nat>)
      modifies this`maxBySeeds, this`timeMaxBySeeds, this`minBySeeds, this`maxByAlgButOne
      modifies this`maxByAlg, this`timeMaxByAlg, this`ba, this`eba, this`rankSum
      ensures maxBySeeds == mbs && timeMaxBySeeds == tmbs && minBySeeds == least && maxByAlgButOne == others
      ensures maxByAlg == mba && timeMaxByAlg == tmba && ba == b && eba == e && rankSum == ranks
    {
      maxBySeeds, timeMaxBySeeds, minBySeeds, maxByAlgButOne := mbs, tmbs, least, others;
      maxByAlg, timeMaxByAlg, ba, eba, rankSum := mba, tmba, b, e, ranks;
    }

    // -------------------------------------------------------------------
    // Selecting instances.

    /** `extract`: every instance is either accepted (written out) or
        rejected; it is accepted when few algorithms reach its best value
        on every seed. */
    method Extract(level: int) returns (accepted: set<string>, nAccepted: nat, nRejected: nat)
      requires Loaded() && Grid(values, D())
      ensures accepted == set n | n in insts.index && Difficult(values, D(), Num, insts.index[n], level)
      ensures nAccepted == |accepted| && nAccepted + nRejected == ninstances
    {
      CompareMeasures();
      var chosen;
      chosen, nAccepted, nRejected := SelectDifficult(values, D(), level, Compare, Num);
      accepted := set n | n in insts.index && chosen[insts.index[n]];
      DifficultCount(insts, values, D(), Num, level, accepted);
    }

    /** `extractChamp` with metric 2 (BA) or 3 (EBA): `None` when the
        algorithm is unknown (the source aborts); otherwise the instances
        meeting the metric's condition for that algorithm, which are as
        many as BA (EBA) counts for it. */
    method ExtractChamp(metric: nat, name: string) returns (r: Option<(set<string>, nat, nat)>)
      requires metric == 2 || metric == 3
      requires Loaded() && Mat(maxBySeeds, D()) && Mat(timeMaxBySeeds, D())
      requires |maxByAlg| == |timeMaxByAlg| == ninstances
      ensures r.None? <==> name !in algs.index
      ensures r.Some? ==>
        var h := algs.index[name];
        var (accepted, nAccepted, nRejected) := r.value;
        accepted == (set n | n in insts.index && Champion(metric, maxBySeeds, timeMaxBySeeds, maxByAlg, timeMaxByAlg, Num, h, insts.index[n]))
        && nAccepted == |accepted| && nAccepted + nRejected == ninstances
        && nAccepted == if metric == 2 then Achieved(maxBySeeds, maxByAlg, Num, h, ninstances)
                        else EarliestAchieved(maxBySeeds, timeMaxBySeeds, maxByAlg, timeMaxByAlg, Num, h, ninstances)
    {
      if name !in algs.index {
        return None;
      }
      var h := algs.index[name];
      CompareMeasures();
      var chosen, nAccepted, nRejected := SelectChampions(metric, maxBySeeds, timeMaxBySeeds, maxByAlg, timeMaxByAlg, D(), h, Compare, Num);
      var accepted := set n | n in insts.index && chosen[insts.index[n]];
      ChampionCount(metric, insts, maxBySeeds, timeMaxBySeeds, maxByAlg, timeMaxByAlg, Num, h, accepted);
      r := Some((accepted, nAccepted, nRejected));
    }
  }
}
