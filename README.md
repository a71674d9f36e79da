# Max-cut benchmark tools: table generator, isolated-node removal, instance extraction

This project models, in Dafny, the core of three command-line tools of a
max-cut / QUBO benchmark repository:

- **`tablegenerator`** (src/tablegenerator.cpp) reads a results log with
  one record per run (timestamp, instance, algorithm, seed, time limit,
  objective value, time, value/time history). It can restrict the run to
  instance and algorithm inclusion lists. It files every value and time as
  a string, indexed [seed][instance][algorithm], and computes per-algorithm
  statistics:
  - the best value over seeds (ties go to the earlier time);
  - the worst value over seeds;
  - the best over algorithms, and the best over all other algorithms;
  - BA, the number of instances on which an algorithm reaches the best value;
  - EBA, the same but also at the earliest time;
  - the sum of ranks behind the average rank AR.

  It can also write the instances that are "difficult" (`extract`) or won
  by a given algorithm (`extractChamp`). Numbers are compared as decimal
  strings by `dotpos`/`gte`. The model proves this comparison exact: it is
  the sign of the difference of the rational numbers the strings denote.
  Every statistic is proved against a specification function over those
  numbers.
- **`deChimera`** (src/deChimera.cpp, edge loop to the end) drops edges
  of weight 0, renumbers the nodes that still have an edge consecutively
  in their old order, and writes every edge with renamed endpoints, the
  smaller first.
- **`extract`** (src/extract.cpp) reads an optional list of interesting
  instance names and a summary file. It writes the names of the instances
  that pass its filter, counts them, and tracks the smallest and largest
  node count among them.

## Layout

- `strings.dfy`: module `Strings`. Character search, `Split`/`Join`, the
  two `trim` helpers, and the zero-filling `split` of extract.cpp.
- `decimal.dfy`: module `Decimal`. `dotpos` and `gte`, with the exact
  value of a numeral.
- `history.dfy`: module `History`. `trueValue` and how the caller uses
  its answer.
- `registry.dfy`: module `Registry`. The name-to-index maps filled by
  `try_emplace`, and the inclusion lists.
- `ingest.dfy`: module `Ingest`. The per-record field switch of
  `read_results_file` and the string tables it fills.
- `stats.dfy`: module `Statistics`. Specification functions of the
  statistics, and the single-row loops proved against them.
- `passes.dfy`: module `Passes`. The matrix/vector passes, built from the
  row loops.
- `tablegen.dfy`: module `TableGen`. The `tablegenerator` class, with its
  registries, tables and statistics as fields, and its reading and
  statistics methods.
- `dechimera.dfy`: module `DeChimera`.
- `extract.dfy`: module `Extract`.

## Model

| member | source | states |
|---|---|---|
| Decimal.Normalize | src/tablegenerator.cpp:166-216 | `dotpos` yields a canonical digit string and point position that denote exactly the value of the numeral |
| Decimal.DotPos | src/tablegenerator.cpp:166-216 | the in-place `dotpos` (exponent, point removal, zero padding, leading-zero removal) computes `Normalize`, a canonical form of the same value |
| Decimal.ShiftPoint | src/tablegenerator.cpp:171-203 | removing exponent and point and padding gives a non-negative point position over the concatenated integer and fraction digits |
| Decimal.StripKeeps | src/tablegenerator.cpp:205-213 | removing leading zeros before the point keeps the value and leaves a canonical form |
| Decimal.Gte | src/tablegenerator.cpp:220-244 | `gte(u, v)` is the sign of Value(u) - Value(v) for all numerals |
| Decimal.CompareExact | src/tablegenerator.cpp:225-243 | on canonical forms, the point-position test followed by the padded lexicographic comparison is the sign of the difference of magnitudes |
| Decimal.CompareNormal | src/tablegenerator.cpp:225-243 | once both numerals are canonical forms denoting x and y, the comparison `gte` makes on them is the sign of x - y |
| Decimal.SameStart | src/tablegenerator.cpp:226-239 | with equal point positions, padding the shorter digit string with zeros and comparing the strings gives the sign of the difference of the magnitudes |
| Decimal.DigitsDecide | src/tablegenerator.cpp:237-239 | for equal-length digit strings with a common point, string order is numeric order |
| Decimal.PointDecides | src/tablegenerator.cpp:237 | a canonical form with a later point is strictly larger |
| Decimal.GteReflexive | src/tablegenerator.cpp:220-244 | gte(u, u) == 0 |
| Decimal.GteAntisymmetric | src/tablegenerator.cpp:220-244 | gte(u, v) == -gte(v, u) |
| Decimal.GteTransitive | src/tablegenerator.cpp:220-244 | gte(u, v) >= 0 and gte(v, w) >= 0 give gte(u, w) >= 0, with equality exactly when both steps are equalities |
| Decimal.LeadingZerosIgnored | src/tablegenerator.cpp:205-213 | "000d" compares equal to "d" |
| Decimal.TrailingZerosIgnored | src/tablegenerator.cpp:226-232 | trailing fraction zeros do not change the comparison |
| Decimal.ExponentMovesPoint | src/tablegenerator.cpp:172-177 | "ie<k>" compares equal to i followed by k zeros |
| Strings.Find | src/tablegenerator.cpp:394 | `find(c)`: the first occurrence, or the length for `npos` |
| Strings.RFind | src/tablegenerator.cpp:268-270 | `rfind(c, pos)`: -1 (`npos`) or an index at or before pos that holds c |
| Strings.RFindLast | src/tablegenerator.cpp:268 | no index after the one `rfind` returns, up to pos, holds c: it is the last occurrence |
| Strings.JoinSplit | src/extract.cpp:64-73 | joining the split fields with the delimiter gives back the line |
| Strings.SplitJoin | src/extract.cpp:64-73 | splitting a join of delimiter-free fields gives back the fields |
| Strings.SplitCount | src/extract.cpp:64-73 | a line with k delimiters has k + 1 fields |
| Strings.SplitTerminated | src/tablegenerator.cpp:473-477 | appending the delimiter adds exactly one empty last field |
| Strings.Cut | src/extract.cpp:66-73 | the start/end scanning loop of `split` produces exactly the fields `Split` defines |
| Strings.SplitFields | src/extract.cpp:64-77 | `split` is the fields of the line with every empty field replaced by "0" |
| Strings.ZeroFill | src/extract.cpp:74-75 | every field keeps its position; an empty field becomes a non-empty one and a non-empty field is unchanged |
| Strings.TrimFind | src/extract.cpp:51-61 | the trimmed string is empty exactly when the input is all spaces; otherwise it is the slice between the first and last non-space characters, with only spaces cut on either side |
| Strings.TrimErase | src/tablegenerator.cpp:247-253 | the result is empty exactly for all-space input, and otherwise starts and ends with a non-space |
| Strings.TrimsAgree | src/tablegenerator.cpp:247-253 | the erase-based `trim` of tablegenerator.cpp and the find-based `trim` of extract.cpp agree on every string |
| History.PairParts | src/tablegenerator.cpp:273-276 | the value and time of an entry "v:t" are v and t |
| History.LastFit | src/tablegenerator.cpp:266-291 | the chosen entry is the latest whose time fits; no later entry fits |
| History.TrueValue | src/tablegenerator.cpp:258-294 | the backward scan over ';' computes `Replay`: the latest fitting entry, "" as its value when it is the last entry, and ("0","0") when nothing fits |
| History.PendingEntries | src/tablegenerator.cpp:266-286 | with the cursor at pos, the entries the scan still has to examine are exactly those between the opening bracket and pos |
| History.ReplayOfPairs | src/tablegenerator.cpp:258-294 | for a history written as [v1:t1;...;vn:tn], the scan reports (vj, tj) for the latest fitting j, ("", tn) when j is the last, and ("0","0") when none fits |
| History.Resolve | src/tablegenerator.cpp:522-526 | the caller keeps either the reported pair or the replayed one |
| History.LatestFitsKeepsReported | src/tablegenerator.cpp:280-282 | when the most recent entry fits, the record keeps its reported value and time |
| History.NothingFitsGivesZero | src/tablegenerator.cpp:286-291 | when no entry fits, the record gets value "0" and time "0" |
| History.ShortHistoryKeepsReported | src/tablegenerator.cpp:266 | a history of two characters or fewer leaves the record unchanged |
| Registry.Register | src/tablegenerator.cpp:396 | `try_emplace` adds the name if absent and never changes an existing index |
| Registry.RegisterDense | src/tablegenerator.cpp:396 | registering keeps indices dense: a known name changes nothing, a new one gets the counter, which then grows by one |
| Registry.DenseOnto | src/tablegenerator.cpp:390-398 | every index below the counter belongs to some name |
| Registry.DenseCount | src/tablegenerator.cpp:1013-1041 | counting names by a property of their index is counting indices below the counter with that property |
| Registry.ListedName | src/tablegenerator.cpp:391-395 | a list line is trimmed; an empty or '#' line gives no name; a name stops before the first '\r' and does not start with a space |
| Registry.ReadListDense | src/tablegenerator.cpp:380-400 | the registry an inclusion list builds is dense |
| Registry.ReadListHasListed | src/tablegenerator.cpp:391-396 | every name a line contributes is in the registry |
| Registry.ReadListOnlyListed | src/tablegenerator.cpp:391-396 | every name in the registry comes from some line |
| Ingest.DigestStep | src/tablegenerator.cpp:475-531 | processing field n with the `switch` extends the reading of the first n fields to n + 1 |
| Ingest.FieldsDone | src/tablegenerator.cpp:475-531 | the field loop may stop at the end of the record, after field 7, or on a skip, without changing the record's meaning |
| Ingest.PutStores | src/tablegenerator.cpp:533-561 | storing grows the tables as needed, writes the cell, and keeps every other existing cell |
| Ingest.InstanceReady | src/tablegenerator.cpp:481-494 | field 1 keeps the registries consistent; with a list in force the list is unchanged and a kept record's instance is below ninstances |
| Ingest.AlgorithmReady | src/tablegenerator.cpp:495-508 | the same for field 2 and algorithms |
| Ingest.SeedReady | src/tablegenerator.cpp:509-512 | field 3 registers the seed and touches nothing else |
| Ingest.FieldsReady | src/tablegenerator.cpp:475-532 | a whole record keeps the registries consistent and its indices in range |
| Ingest.SkippedIffUnlisted | src/tablegenerator.cpp:482-499 | a record is skipped exactly when an inclusion list in force does not name its instance or its algorithm |
| Ingest.Admit | src/tablegenerator.cpp:461-562 | admitting a record keeps the registries consistent and never adds a name to an inclusion list |
| Ingest.Ingest | src/tablegenerator.cpp:461-563 | reading every record keeps the registries consistent; with an inclusion list in force the registry stays the list, so no name is ever added to it |
| Ingest.UnlistedInstanceSkipped | src/tablegenerator.cpp:482-486 | a record with an unlisted instance only increments `skipped_inst` |
| Ingest.UnlistedAlgorithmSkipped | src/tablegenerator.cpp:496-499 | a record with an unlisted algorithm stores nothing, increments `skipped_alg` and leaves the algorithm list alone |
| Ingest.LastRecordWins | src/tablegenerator.cpp:557-561 | a kept record's value and time land at its (seed, instance, algorithm) and every other stored value stays |
| TableGen.Records | src/tablegenerator.cpp:435-436 | the records are every line after the header |
| TableGen.ReadRecord | src/tablegenerator.cpp:473-532 | the erase-and-find loop over one record computes `Fields` on the record's comma-separated fields |
| TableGen.ReadRecords | src/tablegenerator.cpp:461-563 | the record loop computes `Ingest` |
| TableGen.ReadLog | src/tablegenerator.cpp:426-612 | reading the log computes `Ingest` on the records, and succeeds exactly when every listed name was used |
| TableGen.AllIn | src/tablegenerator.cpp:571-575 | the `found` scan reports whether every index below n was used |
| TableGen.TableGenerator.ReadSelectedInstances | src/tablegenerator.cpp:380-400 | with `some_instances`, the instance registry is the one the list builds and `ninstances` its size; otherwise nothing changes |
| TableGen.TableGenerator.ReadSelectedAlgorithms | src/tablegenerator.cpp:403-423 | the same for algorithms |
| TableGen.TableGenerator.ReadResultsFile | src/tablegenerator.cpp:426-619 | for records that have at least five fields or are skipped by the lists, the registries and string tables become `Ingest` of the records; the skip counters are reported; success exactly when every listed name was used; list sizes are unchanged |
| TableGen.TableGenerator.MaxBySeeds | src/tablegenerator.cpp:795-812 | each cell holds the best value over seeds, ties going to the earliest time, and that time |
| TableGen.TableGenerator.MinBySeeds | src/tablegenerator.cpp:814-826 | each cell holds the first least value over seeds |
| TableGen.TableGenerator.MaxByAlg | src/tablegenerator.cpp:703-721 | each instance holds the best value over algorithms, ties going to the earliest time, and that time |
| TableGen.TableGenerator.MaxByAlgButOne | src/tablegenerator.cpp:758-781 | each cell holds the best value over all other algorithms |
| TableGen.TableGenerator.BestAchieved | src/tablegenerator.cpp:828-838 | BA[h] counts the instances where algorithm h's best equals the best over algorithms |
| TableGen.TableGenerator.EarliestBestAchieved | src/tablegenerator.cpp:840-851 | EBA[h] additionally requires the time to equal the best time |
| TableGen.TableGenerator.AvgRank | src/tablegenerator.cpp:894-923 | the rank sum of h adds 1 + (number of strictly better algorithms) over all instances and seeds |
| TableGen.TableGenerator.ComputeStatistics | src/tablegenerator.cpp:624-642 | after the string passes, every best-over-seeds cell is `BestCell` of the tables, every worst one `LeastCell`, the best over algorithms sits at `BestIndex` of each row, the best of the others is `OthersBest`, BA/EBA are `Achieved`/`EarliestAchieved` with EBA[h] <= BA[h] <= ninstances, and the rank sums are `RankSum` |
| TableGen.TableGenerator.Extract | src/tablegenerator.cpp:1002-1047 | the written instances are exactly the difficult ones, and accepted + rejected = ninstances |
| TableGen.TableGenerator.ExtractChamp | src/tablegenerator.cpp:1049-1097 | an unknown algorithm is an error. Otherwise the written instances are exactly those meeting the metric (2: BA, 3: EBA), their number is BA[h] (EBA[h]), and accepted + rejected = ninstances |
| Statistics.Compare | src/tablegenerator.cpp:220-244 | string comparison is the sign of the difference of the numbers denoted, and is `gte` on numerals |
| Statistics.CompareMeasures | src/tablegenerator.cpp:220-244 | `Compare` is a comparator by key `Num`, as the passes assume |
| Statistics.ZeroNum | src/tablegenerator.cpp:1017 | the start value "0" of `extract` denotes 0 |
| Statistics.BestIndexMeaning | src/tablegenerator.cpp:804-810 | the best index has a maximal value, the least time among maximal values, and every earlier index is worse |
| Statistics.BestIndexUnique | src/tablegenerator.cpp:804-810 | an index with those three properties is the best index |
| Statistics.PickBest | src/tablegenerator.cpp:802-810 | the strict-improvement scan returns the best index's value and time |
| Statistics.FirstMinMeaning | src/tablegenerator.cpp:821-824 | the chosen index is a minimum and every earlier index is strictly larger |
| Statistics.PickMin | src/tablegenerator.cpp:821-824 | the `> 0` replacement scan returns the first minimum |
| Statistics.FirstMaxMeaning | src/tablegenerator.cpp:766-778 | the chosen index is a maximum and every earlier index is strictly smaller |
| Statistics.PickMaxWithout | src/tablegenerator.cpp:764-779 | the two-part scan skipping h returns the first maximum of the row without h |
| Statistics.MaxWithoutMeaning | src/tablegenerator.cpp:758-781 | that value is some other algorithm's value and no other algorithm's value exceeds it |
| Statistics.CountIsSet | src/tablegenerator.cpp:831-835 | the counting loop's tally is the size of the set counted |
| Statistics.AchievedIsSet | src/tablegenerator.cpp:828-838 | BA counts the instances where h reaches the best |
| Statistics.EarliestAchievedIsSet | src/tablegenerator.cpp:840-851 | EBA counts the instances where h reaches the best value at the best time |
| Statistics.EarliestWithinAchieved | src/tablegenerator.cpp:840-851 | EBA <= BA <= number of instances |
| Statistics.CountBetter | src/tablegenerator.cpp:912-919 | the inner rank loop counts the algorithms strictly better than h |
| Statistics.RankBounds | src/tablegenerator.cpp:912-919 | at most n - 1 others are better |
| Statistics.MaximalRanksFirst | src/tablegenerator.cpp:912-919 | an algorithm with a maximal value has no one better (rank 1) |
| Statistics.SeedRanksBounds | src/tablegenerator.cpp:907-920 | each seed adds between 1 and nalgorithms to the rank sum |
| Statistics.RankSumBounds | src/tablegenerator.cpp:904-920 | the rank sum lies between ninstances * nseeds and ninstances * nseeds * nalgorithms |
| Statistics.AlwaysBestRanksFirst | src/tablegenerator.cpp:904-920 | an algorithm best everywhere has rank sum ninstances * nseeds, i.e. AR = 1 |
| Statistics.SeedMaxBounds | src/tablegenerator.cpp:1021-1031 | the running best bounds every value seen and the start value "0" |
| Statistics.TopBounds | src/tablegenerator.cpp:1016-1033 | the final best of `extract` bounds every value of the instance and "0" |
| Statistics.TopAttained | src/tablegenerator.cpp:1016-1033 | the final best is "0" or some value of the instance |
| Statistics.MatchesAll | src/tablegenerator.cpp:1021-1032 | `local_count == n_seeds` exactly when every seed reached the value |
| Statistics.WinnersNone | src/tablegenerator.cpp:1026-1028 | algorithms that fell below a later best do not count, which is why `count` resets |
| Statistics.CountWinners | src/tablegenerator.cpp:1015-1033 | the resetting scan counts the algorithms reaching the instance's best value on every seed |
| Statistics.Written | src/tablegenerator.cpp:1003-1040 | an instance is written exactly when its count is at most the threshold: half the algorithms for a negative level, the level otherwise |
| Statistics.CompareLexicographic | src/tablegenerator.cpp:305-318 | `compare_couple` orders by larger criteria, then larger criteria2, then smaller index |
| Statistics.CompareStrict | src/tablegenerator.cpp:305-318 | the comparator is irreflexive, asymmetric and transitive, a strict weak order for `sort` |
| Statistics.CompareTotal | src/tablegenerator.cpp:305-318 | couples with distinct indices are always ordered one way |
| Passes.BestBySeeds | src/tablegenerator.cpp:795-812 | every cell of the max-by-seeds pass is `BestCell` |
| Passes.LeastBySeeds | src/tablegenerator.cpp:814-826 | every cell of the min-by-seeds pass is `LeastCell` |
| Passes.BestByAlg | src/tablegenerator.cpp:703-721 | every instance gets the value and time at the best algorithm index |
| Passes.BestOfOthers | src/tablegenerator.cpp:758-781 | every cell is the best value of the other algorithms |
| Passes.BestAchieved | src/tablegenerator.cpp:828-838 | every algorithm's tally is `Achieved` |
| Passes.EarliestBestAchieved | src/tablegenerator.cpp:840-851 | every algorithm's tally is `EarliestAchieved` |
| Passes.AchievedBounds | src/tablegenerator.cpp:828-851 | EBA[h] <= BA[h] <= ninstances for every h |
| Passes.RankSums | src/tablegenerator.cpp:904-920 | every algorithm's rank sum is `RankSum` |
| Passes.SelectDifficult | src/tablegenerator.cpp:1013-1041 | an instance is chosen exactly when it is difficult; accepted counts them and accepted + rejected = ninstances |
| Passes.SelectChampions | src/tablegenerator.cpp:1066-1091 | an instance is chosen exactly when the metric holds; accepted equals BA (metric 2) or EBA (metric 3) |
| Passes.DifficultCount | src/tablegenerator.cpp:1013-1041 | the names written by `extract` are as many as the difficult indices |
| Passes.ChampionCount | src/tablegenerator.cpp:1066-1091 | the names written by `extractChamp` are as many as BA (EBA) counts |
| DeChimera.Kept | src/deChimera.cpp:100-115 | the kept edges have nonzero weight and 0-based endpoints below n, and are no more than the input |
| DeChimera.KeptCount | src/deChimera.cpp:105-111 | exactly one edge is kept per input edge of nonzero weight |
| DeChimera.KeptOrigin | src/deChimera.cpp:105-111 | the kept edges are the nonzero input edges in input order: the j-th comes from input position `Origins(es)[j]`, shifted to 0-based; those positions strictly increase and are exactly the positions of nonzero weight |
| DeChimera.Hits | src/deChimera.cpp:112-113 | an edge adds to a node's degree exactly when the node is an endpoint, and a self-loop adds 2 |
| DeChimera.EndpointDegree | src/deChimera.cpp:112-113 | both endpoints of a kept edge have positive degree |
| DeChimera.DegreeWitness | src/deChimera.cpp:112-113 | a node of positive degree is an endpoint of some kept edge |
| DeChimera.DegreesStep | src/deChimera.cpp:112-113 | the two increments turn the degrees of the kept prefix into those of the longer prefix |
| DeChimera.RankCounts | src/deChimera.cpp:123-129 | the counter at node m is the number of earlier nodes of positive degree |
| DeChimera.NamesIncrease | src/deChimera.cpp:123-129 | renaming keeps the old order of non-isolated nodes |
| DeChimera.NamesBelow | src/deChimera.cpp:123-129 | every non-isolated node gets a name below `new_n` |
| DeChimera.NamesOnto | src/deChimera.cpp:123-129 | every name below the counter is used by some node |
| DeChimera.RenamedAll | src/deChimera.cpp:117-129 | visiting every node writes exactly the renaming |
| DeChimera.Orient | src/deChimera.cpp:137-148 | an output edge is 1-based, smaller endpoint first, with the same endpoints and weight |
| DeChimera.OutputInRange | src/deChimera.cpp:136-151 | every written edge has endpoints in 1..new_n and its kept weight |
| DeChimera.NewCount | src/deChimera.cpp:120-131 | `new_n` is the number of nodes that still have an edge |
| DeChimera.Collect | src/deChimera.cpp:100-115 | the edge loop keeps exactly `Kept` and counts every node's degree over it |
| DeChimera.Rename | src/deChimera.cpp:117-129 | the renaming loop produces `Names` and `new_n` |
| DeChimera.WriteEdges | src/deChimera.cpp:136-151 | the output loop writes `Output` |
| DeChimera.RemoveIsolated | src/deChimera.cpp:100-151 | the program writes `new_n`, the number of nodes with an edge, and one edge per nonzero input edge, each in 1..new_n, ordered, with nonzero weight |
| Extract.Entry | src/extract.cpp:200-205 | a listed line's name is the trimmed line, less one final '\r' if present |
| Extract.Contribution | src/extract.cpp:200-206 | a line contributes a name exactly when its trimmed form is non-empty and does not start with '#' |
| Extract.InterestingMembers | src/extract.cpp:198-209 | a name is interesting exactly when some line contributes it |
| Extract.EntryTrimmed | src/extract.cpp:200-205 | without '\r', a name is non-empty, not a comment, and has no surrounding spaces |
| Extract.SpaceBeforeReturn | src/extract.cpp:200-205 | "ab \r" yields "ab ": trimming happens before the '\r' is removed |
| Extract.ReadInteresting | src/extract.cpp:198-209 | the reading loop builds exactly `Interesting` |
| Extract.ReadEntry | src/extract.cpp:200-206 | one line of the list yields nothing when its trimmed form is blank or a comment, otherwise exactly the name `Contribution` defines |
| Extract.Tokens | src/extract.cpp:220 | a line with k commas has k + 1 tokens, none empty |
| Extract.Chosen | src/extract.cpp:218-266 | every chosen line has at least 15 tokens and passes the filter |
| Extract.ChosenCount | src/extract.cpp:253-256 | `n_extract` counts the lines that pass |
| Extract.HeadsStep | src/extract.cpp:255 | writing a passing line appends its name |
| Extract.Widen | src/extract.cpp:257-264 | the first pass sets both bounds to n, later ones take min and max |
| Extract.ExtremesStep | src/extract.cpp:257-264 | the bounds stay the least and greatest node counts of the passing lines, each attained |
| Extract.TallySkip | src/extract.cpp:223-226 | a line with fewer than 15 tokens, or failing the filter, changes nothing |
| Extract.TallyAdd | src/extract.cpp:253-265 | a passing line appends its name, increments the count and widens the bounds |
| Extract.ReadSummary | src/extract.cpp:211-266 | the lines written are the names of the passing lines in order; `n_extract` is their number; the bounds are the least and greatest node counts among them (0 and 0 when none) |
| Extract.ReadLine | src/extract.cpp:219-265 | one line of the loop keeps the running tally correct |

## Left out

- Standard-stream and file I/O, `exit`, the console messages, and the
  command-line parameters (`read_parameters`, `main`) are not modelled.
  Files come in as sequences of lines. An inclusion list's "all"/"some"
  choice is a boolean of the configuration.
- Floating-point parts of `tablegenerator` are not modelled:
  - `resultsdata` (the `stod` copy of the values), `SumBySeeds`, the
    double `MaxByAlg`/`MaxByAlgButOne`, FE and FS;
  - the three deviation passes and the divisions by `ninstances` or
    `n_seeds * ninstances` (BA, EBA and AR are kept as counts and rank
    sums);
  - metrics 0 and 1 of `extractChamp`, which read the double matrices;
  - `writetable`.
- `stod(time) <= limit * time_limit_scaling` is a parameter predicate
  (`within`, `fits`). The density, negative-weight and node-count
  arithmetic of extract.cpp is a parameter too (`fits`, `nodes`), because
  it is double and `stoi` arithmetic.
- Statistics.Compare: `gte` on a string that is not a numeral (a sign, a
  second point, letters) would throw from `stoi` or compare garbage. The
  model gives every such string the key -1, which places it below every
  numeral.
- Decimal.Gte: numerals are unsigned; `-` signs never occur in the
  values and times compared.
- Decimal.Gte: exponents are unbounded integers. The source reads the
  exponent with `stoi`, which throws for one beyond `int`
  (tablegenerator.cpp:174), and adds it to the `int` point position
  (:189), which can overflow. Neither is modelled.
- TableGen.TableGenerator.ReadResultsFile: requires every record to be
  `Readable`: it has at least five fields, or the inclusion lists skip
  it. A stored record with fewer fields keeps an empty value, and `stod`
  at tablegenerator.cpp:560 throws and ends the program. Skipped records
  of any length are read, as in the source. The same requirement is on
  TableGen.ReadRecords, TableGen.ReadLog, Ingest.Admit and Ingest.Ingest.
- History.TrueValue: `stod(time)` at tablegenerator.cpp:279 throws, and
  ends the program, on a history time it cannot read: an empty one (an
  entry without ':' such as "7" in `[1:2;7;9:3]`, or an empty entry as in
  `[1:2;;9:3]`), one that is not a number, or one out of double range.
  The parameter `fits` is total, so `Replay` and `TrueValue` go on
  scanning and return a value there. The same holds for Ingest.Fields,
  which replays the history field with `within`.
- Ingest.Fields: a value or time limit that `stod` cannot read (such as
  "NA") makes the source throw at tablegenerator.cpp:514 or :560 and end.
  The model stores the string as it is; `Num` then gives it the key -1.
- TableGen.TableGenerator.MaxBySeeds, MinBySeeds, AvgRank,
  ComputeStatistics and Extract: require the full table (`Grid`): every
  seed has every instance row, and every row has every algorithm. The
  source grows its rows on demand (tablegenerator.cpp:540-556), so a log
  missing a run leaves a ragged table, and the passes then read past the
  end of a row. Reading the log does not establish `Grid`.
- TableGen.TableGenerator.ComputeStatistics: requires at least one seed
  and two algorithms. With fewer, the source reads `resultsdata_str[0]`
  or `in_mat[i][1]` out of range.
- TableGen.TableGenerator.MaxByAlgButOne: requires two algorithms, for
  the same reason.
- TableGen.TableGenerator.ExtractChamp: an unknown algorithm name is
  `None` where the source prints a message and exits.
- The selection loops of `extract` and `extractChamp` visit the instance
  map in hash order. The model visits the dense indices in order. Only
  the order of the written names differs, so the written names are
  stated as a set.
- Unsigned `Index` wrap-around is not modelled; counters are unbounded
  naturals.
- DeChimera.RemoveIsolated: weights are exact reals, since the program
  only compares them with 0 and copies them. The endpoint range
  `1 <= f, t <= n` of every nonzero-weight edge is a precondition
  (`Indexed`): the input format gives 1-based node numbers
  (deChimera.cpp:35-36), and the source indexes `degree` with the
  endpoints of those edges without checking (:112-113). Edges of zero
  weight may have any endpoints, as in the source.
- Extract.ReadSummary: the error message for a short line is not
  modelled. A line with fewer than 15 tokens is skipped, as in the
  source.
- Extract.ReadSummary: the parameters `fits` and `nodes` are total. The
  source's `stoi`/`stod` on the numeric fields (extract.cpp:230-243)
  throw, and end the program, on a field that is not a number.
- Extract.Entry: the list reader trims before removing a final '\r'. A
  line such as "ab \r" therefore gives "ab " with a trailing space.
  `SpaceBeforeReturn` records this behaviour. The same holds for the
  inclusion lists of tablegenerator.cpp, which cut at the first '\r'.
