/**
  Reading the results log (`read_results_file` in src/tablegenerator.cpp),
  one comma-separated record at a time.

  A record's fields are, by position: 0 timestamp, 1 instance, 2 algorithm,
  3 seed, 4 time limit, 5 objective value, 6 time, 7 history. With an
  inclusion list in force, a record naming an instance (or algorithm) that
  is not listed is skipped and counted; otherwise names get dense indices
  on first sight. The value and time of the record land in the string
  tables `resultsdata_str` and `resultstime`, indexed [seed][instance]
  [algorithm], which grow on demand; a later record for the same key
  overwrites an earlier one.

  Whether a time is within a record's limit (`stod(time) <= stod(limit) *
  time_limit_scaling`) is the predicate `within(limit, time)`.
*/
module Ingest {

  import opened Strings
  import opened History
  import opened Registry

  /** Indexed [seed][instance][algorithm]. */
  type Table = seq<seq<seq<string>>>

  /** Which names are restricted by an inclusion list, and the list sizes. */
  datatype Config = Config(instSome: bool, algSome: bool, ninstances: nat, nalgorithms: nat)

  /** Everything reading a record can change besides the tables. */
  datatype Books = Books(
    insts: Registry, algs: Registry, seeds: Registry,
    usedInst: set<nat>, usedAlg: set<nat>,
    skippedInst: nat, skippedAlg: nat)

  /** The locals of the record loop: `skip`, `Inst`, `Algo`, `Seed`, the
      limit field, `Value` and `Time`. */
  datatype Record = Record(
    books: Books, skip: bool, inst: nat, algo: nat, seed: nat,
    limit: string, value: string, time: string)

  function Fresh(b: Books): Record
  {
    Record(b, false, 0, 0, 0, "", "", "")
  }

  /** Field 1: with an inclusion list, a listed instance is marked used and
      an unlisted one makes the record skipped; otherwise the name is
      registered. */
  function NameInstance(cfg: Config, rec: Record, token: string): Record
  {
    var b := rec.books;
    if cfg.instSome then
      if token in b.insts.index then
        rec.(books := b.(usedInst := b.usedInst + {b.insts.index[token]}), inst := b.insts.index[token])
      else
        rec.(books := b.(skippedInst := b.skippedInst + 1), skip := true)
    else
      var r := Register(b.insts, token);
      rec.(books := b.(insts := r), inst := r.index[token])
  }

  /** Field 2: as field 1, for algorithms. */
  function NameAlgorithm(cfg: Config, rec: Record, token: string): Record
  {
    var b := rec.books;
    if cfg.algSome then
      if token in b.algs.index then
        rec.(books := b.(usedAlg := b.usedAlg + {b.algs.index[token]}), algo := b.algs.index[token])
      else
        rec.(books := b.(skippedAlg := b.skippedAlg + 1), skip := true)
    else
      var r := Register(b.algs, token);
      rec.(books := b.(algs := r), algo := r.index[token])
  }

  /** Field 3: seeds are always registered. */
  function NameSeed(rec: Record, token: string): Record
  {
    var r := Register(rec.books.seeds, token);
    rec.(books := rec.books.(seeds := r), seed := r.index[token])
  }

  /** One `case` of the switch on the field number. Field 4 falls through
      into field 5, so it also sets the value. */
  function Digest(cfg: Config, rec: Record, ind: nat, token: string, within: (string, string) -> bool): Record
  {
    if ind == 1 then NameInstance(cfg, rec, token)
    else if ind == 2 then NameAlgorithm(cfg, rec, token)
    else if ind == 3 then NameSeed(rec, token)
    else if ind == 4 then rec.(limit := token, value := token)
    else if ind == 5 then rec.(value := token)
    else if ind == 6 then rec.(time := token)
    else if ind == 7 then
      var p := Resolve((rec.value, rec.time), Replay(token, t => within(rec.limit, t)));
      rec.(value := p.0, time := p.1)
    else rec
  }

  /** What a record means, field by field: the names it registers or is
      skipped for, the value (field 5, or field 4 when the record has
      exactly five fields, or "" when shorter), the time (field 6 or ""),
      both replaced by the history replay when field 7 is present. */
  function Fields(cfg: Config, b: Books, tk: seq<string>, within: (string, string) -> bool): Record
  {
    var r0 := Fresh(b);
    var r1 := if |tk| > 1 then NameInstance(cfg, r0, tk[1]) else r0;
    if r1.skip then r1
    else
      var r2 := if |tk| > 2 then NameAlgorithm(cfg, r1, tk[2]) else r1;
      if r2.skip then r2
      else
        var r3 := if |tk| > 3 then NameSeed(r2, tk[3]) else r2;
        var limit := if |tk| > 4 then tk[4] else "";
        var value := if |tk| > 5 then tk[5] else if |tk| == 5 then tk[4] else "";
        var time := if |tk| > 6 then tk[6] else "";
        var p := if |tk| > 7 then Resolve((value, time), Replay(tk[7], t => within(limit, t))) else (value, time);
        r3.(limit := limit, value := p.0, time := p.1)
  }

  /** Digesting field n of a record extends the reading of its first n
      fields to the first n + 1. */
  lemma {:induction false} DigestStep(cfg: Config, b: Books, tk: seq<string>, n: nat, within: (string, string) -> bool)
    requires n < |tk| && n < 8 && !Fields(cfg, b, tk[..n], within).skip
    ensures Digest(cfg, Fields(cfg, b, tk[..n], within), n, tk[n], within) == Fields(cfg, b, tk[..n + 1], within)
  {
    var a, c := tk[..n], tk[..n + 1];
    assert forall k :: 0 <= k < n ==> a[k] == tk[k] && c[k] == tk[k];
    assert c[n] == tk[n];
    if n == 7 {
      // the history field: both sides replay tk[7] against the same limit
      assert a[4] == tk[4] && c[7] == tk[7];
    }
  }

  /** The record loop stops at the end of the fields, after field 7, or as
      soon as the record is skipped; in each case the fields read so far
      determine the whole record. */
  lemma {:induction false} FieldsDone(cfg: Config, b: Books, tk: seq<string>, n: nat, within: (string, string) -> bool)
    requires n <= |tk|
    requires n == |tk| || n == 8 || (2 <= n && Fields(cfg, b, tk[..n], within).skip)
    ensures Fields(cfg, b, tk[..n], within) == Fields(cfg, b, tk, within)
  {
    if n < |tk| {
      var a := tk[..n];
      assert forall k :: 0 <= k < n ==> a[k] == tk[k];
    } else {
      assert tk[..n] == tk;
    }
  }

  // ---------------------------------------------------------------------
  // Tables.

  /** `std::vector::resize(n, fill)`. */
  function Resize<T>(xs: seq<T>, n: nat, fill: T): (r: seq<T>)
    ensures |r| == n
    ensures forall k :: 0 <= k < n ==> r[k] == if k < |xs| then xs[k] else fill
  {
    if n <= |xs| then xs[..n] else xs + seq(n - |xs|, _ => fill)
  }

  /** Growing a table so that [s][i][a] exists, then writing v there. A
      missing seed row grows to s + 1; a missing instance row grows to
      i + 1, or to the whole list with an instance inclusion list; a missing
      algorithm row likewise. */
  function Put(cfg: Config, t: Table, s: nat, i: nat, a: nat, v: string): Table
    requires cfg.instSome ==> i < cfg.ninstances
    requires cfg.algSome ==> a < cfg.nalgorithms
  {
    var t1 := if s < |t| then t else Resize(t, s + 1, []);
    var row := t1[s];
    var row1 := if i < |row| then row else Resize(row, if cfg.instSome then cfg.ninstances else i + 1, []);
    var cell := row1[i];
    var cell1 := if a < |cell| then cell else Resize(cell, if cfg.algSome then cfg.nalgorithms else a + 1, "");
    t1[s := row1[i := cell1[a := v]]]
  }

  predicate Has(t: Table, s: int, i: int, a: int)
  {
    0 <= s < |t| && 0 <= i < |t[s]| && 0 <= a < |t[s][i]|
  }

  /** After a write the key holds the written value, every cell that
      existed before and has another key is unchanged, and nothing shrinks. */
  lemma {:induction false} PutStores(cfg: Config, t: Table, s: nat, i: nat, a: nat, v: string)
    requires cfg.instSome ==> i < cfg.ninstances
    requires cfg.algSome ==> a < cfg.nalgorithms
    ensures var r := Put(cfg, t, s, i, a, v);
      Has(r, s, i, a) && r[s][i][a] == v
      && (forall s', i', a' :: Has(t, s', i', a') ==> Has(r, s', i', a'))
      && (forall s', i', a' :: Has(t, s', i', a') && (s', i', a') != (s, i, a) ==> r[s'][i'][a'] == t[s'][i'][a'])
  {
    var t1 := if s < |t| then t else Resize(t, s + 1, []);
    var row1 := if i < |t1[s]| then t1[s] else Resize(t1[s], if cfg.instSome then cfg.ninstances else i + 1, []);
    var cell := row1[i];
    var cell1 := if a < |cell| then cell else Resize(cell, if cfg.algSome then cfg.nalgorithms else a + 1, "");
    var r := Put(cfg, t, s, i, a, v);
    assert r == t1[s := row1[i := cell1[a := v]]];
    forall s', i', a' | Has(t, s', i', a')
      ensures Has(r, s', i', a')
      ensures (s', i', a') != (s, i, a) ==> r[s'][i'][a'] == t[s'][i'][a']
    {
      assert t1[s'] == t[s'];
      if s' == s {
        assert row1[i'] == t[s][i'];
        if i' == i {
          assert cell1[a'] == t[s][i][a'];
        }
      }
    }
  }

  // ---------------------------------------------------------------------
  // Whole records and the whole log.

  datatype State = State(books: Books, values: Table, times: Table)

  /** Registries are dense; an inclusion list fixes its registry's size. */
  ghost predicate Ready(cfg: Config, b: Books)
  {
    Dense(b.insts) && Dense(b.algs) && Dense(b.seeds)
    && (cfg.instSome ==> b.insts.count == cfg.ninstances)
    && (cfg.algSome ==> b.algs.count == cfg.nalgorithms)
  }

  /** The inclusion lists in `lists` skip the record: its instance is not
      listed, or its algorithm is not. */
  predicate Unlisted(cfg: Config, lists: Books, tk: seq<string>)
  {
    (cfg.instSome && |tk| > 1 && tk[1] !in lists.insts.index)
    || (cfg.algSome && |tk| > 2 && tk[2] !in lists.algs.index)
  }

  /** A record the source reads without ending the program: the lists
      skip it, or it has a value field. A stored record with fewer than
      five fields keeps an empty value, and converting that with `stod`
      ends the program. */
  predicate Readable(cfg: Config, lists: Books, line: string)
  {
    var tk := Split(line, ',');
    5 <= |tk| || Unlisted(cfg, lists, tk)
  }

  /** Whether a record is readable depends only on the inclusion lists. */
  lemma {:induction false} SameLists(cfg: Config, a: Books, b: Books, line: string)
    requires (cfg.instSome ==> a.insts == b.insts) && (cfg.algSome ==> a.algs == b.algs)
    ensures Readable(cfg, a, line) == Readable(cfg, b, line)
  {
  }

  /** A record is skipped exactly when the inclusion lists do not name its
      instance or its algorithm. */
  lemma {:induction false} SkippedIffUnlisted(cfg: Config, b: Books, tk: seq<string>, within: (string, string) -> bool)
    ensures Fields(cfg, b, tk, within).skip <==> Unlisted(cfg, b, tk)
  {
    if |tk| > 1 {
      var r1 := NameInstance(cfg, Fresh(b), tk[1]);
      assert r1.books.algs == b.algs;
    }
  }

  lemma {:induction false} InstanceReady(cfg: Config, rec: Record, token: string)
    requires Ready(cfg, rec.books)
    ensures var r := NameInstance(cfg, rec, token);
      Ready(cfg, r.books) && r.books.algs == rec.books.algs && r.books.seeds == rec.books.seeds
      && r.algo == rec.algo && r.seed == rec.seed
      && (cfg.instSome ==> r.books.insts == rec.books.insts && (r.skip || r.inst < cfg.ninstances))
  {
    if cfg.instSome {
      if token in rec.books.insts.index {
        assert rec.books.insts.index[token] < rec.books.insts.count;
      }
    } else {
      RegisterDense(rec.books.insts, token);
    }
  }

  lemma {:induction false} AlgorithmReady(cfg: Config, rec: Record, token: string)
    requires Ready(cfg, rec.books)
    ensures var r := NameAlgorithm(cfg, rec, token);
      Ready(cfg, r.books) && r.books.insts == rec.books.insts && r.books.seeds == rec.books.seeds
      && r.inst == rec.inst && r.seed == rec.seed
      && (cfg.algSome ==> r.books.algs == rec.books.algs && (r.skip || r.algo < cfg.nalgorithms))
  {
    if cfg.algSome {
      if token in rec.books.algs.index {
        assert rec.books.algs.index[token] < rec.books.algs.count;
      }
    } else {
      RegisterDense(rec.books.algs, token);
    }
  }

  lemma {:induction false} SeedReady(cfg: Config, rec: Record, token: string)
    requires Ready(cfg, rec.books)
    ensures var r := NameSeed(rec, token);
      Ready(cfg, r.books) && r.books.insts == rec.books.insts && r.books.algs == rec.books.algs
      && r.inst == rec.inst && r.algo == rec.algo && r.skip == rec.skip
  {
    RegisterDense(rec.books.seeds, token);
  }

  /** Reading a record keeps the registries dense, never changes a
      registry an inclusion list fixed, and yields indices inside the
      inclusion lists. */
  lemma {:induction false} FieldsReady(cfg: Config, b: Books, tk: seq<string>, within: (string, string) -> bool)
    requires Ready(cfg, b)
    requires Fields(cfg, b, tk, within).skip
      || ((cfg.instSome && |tk| < 2 ==> cfg.ninstances > 0) && (cfg.algSome && |tk| < 3 ==> cfg.nalgorithms > 0))
    ensures var rec := Fields(cfg, b, tk, within);
      Ready(cfg, rec.books)
      && (cfg.instSome ==> rec.books.insts == b.insts && (rec.skip || rec.inst < cfg.ninstances))
      && (cfg.algSome ==> rec.books.algs == b.algs && (rec.skip || rec.algo < cfg.nalgorithms))
  {
    var r0 := Fresh(b);
    if |tk| > 1 { InstanceReady(cfg, r0, tk[1]); }
    var r1 := if |tk| > 1 then NameInstance(cfg, r0, tk[1]) else r0;
    if !r1.skip {
      if |tk| > 2 { AlgorithmReady(cfg, r1, tk[2]); }
      var r2 := if |tk| > 2 then NameAlgorithm(cfg, r1, tk[2]) else r1;
      if !r2.skip && |tk| > 3 { SeedReady(cfg, r2, tk[3]); }
    }
  }

  /** One record of the log: skipped records change only the bookkeeping;
      the others also write their value and time under their key. An
      inclusion list never gains a name. */
  function Admit(cfg: Config, st: State, line: string, within: (string, string) -> bool): (r: State)
    requires Ready(cfg, st.books) && Readable(cfg, st.books, line)
    ensures Ready(cfg, r.books)
    ensures (cfg.instSome ==> r.books.insts == st.books.insts) && (cfg.algSome ==> r.books.algs == st.books.algs)
  {
    var rec := Fields(cfg, st.books, Split(line, ','), within);
    SkippedIffUnlisted(cfg, st.books, Split(line, ','), within);
    FieldsReady(cfg, st.books, Split(line, ','), within);
    if rec.skip then st.(books := rec.books)
    else
      State(rec.books,
        Put(cfg, st.values, rec.seed, rec.inst, rec.algo, rec.value),
        Put(cfg, st.times, rec.seed, rec.inst, rec.algo, rec.time))
  }

  /** The state after the given records, in order. With an inclusion
      list the registry is the list: reading the log never adds a name
      to it. */
  function Ingest(cfg: Config, st: State, rows: seq<string>, within: (string, string) -> bool): (r: State)
    requires Ready(cfg, st.books)
    requires forall k :: 0 <= k < |rows| ==> Readable(cfg, st.books, rows[k])
    ensures Ready(cfg, r.books)
    ensures (cfg.instSome ==> r.books.insts == st.books.insts) && (cfg.algSome ==> r.books.algs == st.books.algs)
  {
    if rows == [] then st
    else
      var mid := Ingest(cfg, st, rows[..|rows| - 1], within);
      SameLists(cfg, st.books, mid.books, rows[|rows| - 1]);
      Admit(cfg, mid, rows[|rows| - 1], within)
  }

  /** Every listed name was used by some record. */
  predicate AllUsed(cfg: Config, b: Books)
  {
    (cfg.instSome ==> forall k :: 0 <= k < cfg.ninstances ==> k in b.usedInst)
    && (cfg.algSome ==> forall k :: 0 <= k < cfg.nalgorithms ==> k in b.usedAlg)
  }

  // ---------------------------------------------------------------------
  // What reading a record does.

  /** With an instance inclusion list, a record naming an unlisted instance
      only increments the skipped-instance counter. */
  lemma {:induction false} UnlistedInstanceSkipped(cfg: Config, st: State, line: string, within: (string, string) -> bool)
    requires Ready(cfg, st.books)
    requires cfg.instSome
    requires var tk := Split(line, ','); |tk| > 1 && tk[1] !in st.books.insts.index
    ensures Admit(cfg, st, line, within) == st.(books := st.books.(skippedInst := st.books.skippedInst + 1))
  {
  }

  /** With an algorithm inclusion list, a record whose instance is accepted
      but whose algorithm is unlisted leaves the tables as they were and
      increments the skipped-algorithm counter (the instance still counts
      as used). */
  lemma {:induction false} UnlistedAlgorithmSkipped(cfg: Config, st: State, line: string, within: (string, string) -> bool)
    requires Ready(cfg, st.books)
    requires cfg.algSome
    requires var tk := Split(line, ',');
      |tk| > 2 && tk[2] !in st.books.algs.index && (cfg.instSome ==> tk[1] in st.books.insts.index)
    ensures var r := Admit(cfg, st, line, within);
      r.values == st.values && r.times == st.times
      && r.books.skippedAlg == st.books.skippedAlg + 1 && r.books.skippedInst == st.books.skippedInst
      && r.books.algs == st.books.algs && r.books.usedAlg == st.books.usedAlg
  {
    var tk := Split(line, ',');
    var r1 := NameInstance(cfg, Fresh(st.books), tk[1]);
    assert !r1.skip && r1.books.algs == st.books.algs;
  }

  /** A stored record's value and time sit under its key, whatever was
      there before (the last record for a key wins); every other cell
      that existed is unchanged. */
  lemma {:induction false} LastRecordWins(cfg: Config, st: State, line: string, within: (string, string) -> bool)
    requires Ready(cfg, st.books) && Readable(cfg, st.books, line)
    requires !Fields(cfg, st.books, Split(line, ','), within).skip
    ensures var rec := Fields(cfg, st.books, Split(line, ','), within);
      var r := Admit(cfg, st, line, within);
      Has(r.values, rec.seed, rec.inst, rec.algo) && r.values[rec.seed][rec.inst][rec.algo] == rec.value
      && Has(r.times, rec.seed, rec.inst, rec.algo) && r.times[rec.seed][rec.inst][rec.algo] == rec.time
      && (forall s, i, a :: Has(st.values, s, i, a) && (s, i, a) != (rec.seed, rec.inst, rec.algo) ==>
            Has(r.values, s, i, a) && r.values[s][i][a] == st.values[s][i][a])
  {
    var rec := Fields(cfg, st.books, Split(line, ','), within);
    SkippedIffUnlisted(cfg, st.books, Split(line, ','), within);
    FieldsReady(cfg, st.books, Split(line, ','), within);
    PutStores(cfg, st.values, rec.seed, rec.inst, rec.algo, rec.value);
    PutStores(cfg, st.times, rec.seed, rec.inst, rec.algo, rec.time);
  }
}
