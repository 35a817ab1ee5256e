# fdo branch feedback, modelled in Dafny

This project models the branch analysis of the `fdo` tool's `-apply -branches` mode, in Go's `cmd/fdo`.

The tool runs `perf script -F brstack` on a recorded profile. It extracts every branch-stack entry `0x<source>/0x<target>/<M|P|->/<X|->/<A|->/<cycles>` from the output stream, and counts predicted (`P`) and mispredicted (`M`) samples per branch edge. Kernel addresses are dropped. It then:

- keeps the edges with enough samples whose hit ratio lies outside the band (low, high);
- ranks them by sample count and by hit ratio;
- marks as layout candidates the edges that jump at most 16 bytes forward and are almost always or almost never predicted.

The modules follow the program:

- `Base` holds bytes, `uint64`, `Option` and `Result`.
- `Hex` models `strconv.ParseUint(s, 16, 64)` and `%x` printing.
- `PerfScript` holds the read results, the matcher contract and the history the extraction loop leaves behind. `Extractor` holds the loop itself (`runPerfScript`).
- `Sorting` stands in for `sort.Slice`.
- `Branches` covers aggregation, filtering, ranking, `isJump` and candidate selection.
- `Fdo` covers the brstack pattern and `extractBranches` end to end.
- `Scenarios` holds concrete workloads.

How the model treats I/O and the regular expression:

- The `perf` subprocess becomes the finite sequence of results its reads return: at most 1024 bytes each, with or without end-of-file, or an error. Running out of results counts as end-of-file.
- The regular-expression engine becomes a function `find` from a buffer to a match. Its contract: a match lies inside the buffer, is not empty, and its groups lie inside it. For the brstack pattern, the groups also have the pattern's shape.

A record flagged `-` still creates its entry, with zero counts, but increments neither counter. So an entry's total can be 0, and it counts only the `P` and `M` records for the edge, not every accepted record. `AggregateCounts` states this.

The hit ratio `predicted / total` is an exact real. An edge with a total of 0 has Go's NaN ratio, `Hit.NaN`, which compares false with everything. Such an edge survives filtering only when `branchMinimum <= 0`, and it is never a candidate.

## Model

| member | source | states |
|---|---|---|
| Hex.ParseHex | src/cmd/fdo/branches.go:48-55 | An address field parses exactly when it is non-empty, all hexadecimal digits and below 2^64, at any length and with any leading zeros. It then parses to its value. |
| Hex.FormatHex | src/cmd/fdo/branches.go:108 | The `%x` rendering is a non-empty string of lower-case hexadecimal digits (`0-9`, `a-f`) without a leading zero. |
| Hex.ShortFieldParses | src/cmd/fdo/branches.go:48-55 | A field of at most 16 hexadecimal digits always parses, to its value. |
| Hex.ValueBound | src/cmd/fdo/branches.go:48 | n hexadecimal digits have a value below 16^n, which bounds what `ParseUint` can accept. |
| Hex.FormatValue | src/cmd/fdo/branches.go:108 | The `%x` rendering of a number reads back as that number. |
| Hex.RoundTrip | src/cmd/fdo/branches.go:48 | Every `uint64` address printed in hexadecimal parses back to itself. |
| PerfScript.Groups | src/cmd/fdo/fdo.go:141-144 | One string per capture group, in group order and without group 0. Each is the group's text, taken from inside the whole match. |
| PerfScript.DeliverKeepsProgress | src/cmd/fdo/fdo.go:140-149 | Handing the groups of the match in the buffer to the callback and keeping only the text after the match extends the history by that record. The buffer stays equal to the undiscarded received bytes. |
| PerfScript.DeliverExtendsHistory | src/cmd/fdo/fdo.go:140-149 | A record delivered from the undiscarded bytes, cutting off at least one of them, extends the history. Earlier records keep their places and their reads. |
| PerfScript.ReadExtendsHistory | src/cmd/fdo/fdo.go:152-158 | A read happens only when the buffer holds no match, and it is recorded with the discarded prefix at that moment, whatever it returns. |
| PerfScript.ReadKeepsProgress | src/cmd/fdo/fdo.go:153-159 | A read that lets the loop go on appends exactly its bytes to the buffer and leaves the existing contents unchanged. |
| PerfScript.LastReadAddsNothing | src/cmd/fdo/fdo.go:156-162 | An error or an empty end-of-file read adds no byte. |
| PerfScript.FirstStop | src/cmd/fdo/fdo.go:155-162 | The first read that is an error or a zero-byte end-of-file. Every earlier read lets the loop go on. |
| PerfScript.FirstStopUnique | src/cmd/fdo/fdo.go:155-162 | Only one position has the properties of the first stopping read. |
| PerfScript.RecordsBoundedByCut | src/cmd/fdo/fdo.go:146-148 | Every callback discards at least one byte, so there are no more callbacks than discarded bytes. |
| Extractor.Scan | src/cmd/fdo/fdo.go:136-163 | Each callback gets the groups of the match `find` reports in the buffer. The buffer is always the received bytes after everything discarded so far. Matches are cut off front to back without overlap, and every match is delivered before the next read. The loop stops at the first read that is an error or a zero-byte end-of-file (or when the reads run out). It fails, with that read's error, exactly when that read is an error. A normal exit leaves no match in the buffer. There are no more callbacks than bytes received. |
| Extractor.StopsAtFirstStop | src/cmd/fdo/fdo.go:155-162 | The last read the loop made is the first stopping read, if there is one. That read decides between failure and normal exit, and it adds no byte. |
| Extractor.EndOfResults | src/cmd/fdo/fdo.go:136-163 | When the reads run out with no match in the buffer, the loop ends normally. The history is complete and nothing matches in what was not discarded. |
| Extractor.StoppingRead | src/cmd/fdo/fdo.go:152-162 | A read that fails or is a zero-byte end-of-file, made with no match in the buffer, ends the loop. It fails with that read's error exactly when the read is an error, and it comes after every callback. |
| Extractor.Advance | src/cmd/fdo/fdo.go:140-159 | One round of the loop that does not end it keeps the history, and either delivers a match (shrinking the buffer) or makes a read. |
| Sorting.Insert | src/cmd/fdo/branches.go:98-99 | Inserting an element adds exactly that element to the multiset of the sequence. |
| Sorting.InsertSorted | src/cmd/fdo/branches.go:98-99 | Insertion keeps a sequence sorted by key. |
| Sorting.SortBy | src/cmd/fdo/branches.go:98-99 | The result is a permutation of the input, non-decreasing in the key. |
| Branches.EdgeOf | src/cmd/fdo/branches.go:48-62 | Every edge a record names has both addresses in user space (at most `userTop`). |
| Branches.EdgeOfFields | src/cmd/fdo/branches.go:48-62 | A record names an edge exactly when both address fields after their `0x` are non-empty hexadecimal numerals with values at most `userTop`, and the edge is those two values. |
| Branches.Observe | src/cmd/fdo/branches.go:46-74 | A skipped record leaves the table unchanged. An accepted one adds its key even for flag `-`, adds 1 to `predicted` exactly for `P` and to `missed` exactly for `M`, and leaves every other key alone. |
| Branches.AggregateInto | src/cmd/fdo/branches.go:56-58 | Aggregation never introduces a kernel-space edge. |
| Branches.AggregateCounts | src/cmd/fdo/branches.go:45-77 | The table holds exactly the edges some accepted record names, and each edge's counters equal the number of accepted `P` and `M` records for it. |
| Branches.MentionsSnoc | src/cmd/fdo/branches.go:59-69 | The edges named by a record sequence are those named by all but its last record, plus the last record's edge. |
| Branches.CountsSnoc | src/cmd/fdo/branches.go:65-74 | One more record brings an edge's counters to the counts of `P` and `M` records for it. |
| Branches.CountWithoutMention | src/cmd/fdo/branches.go:65-74 | An edge no accepted record names has no counted sample. |
| Branches.OnlyUserEdges | src/cmd/fdo/branches.go:56-58 | An edge with a kernel address is never in the table, however the records are arranged. |
| Branches.HitRatio | src/cmd/fdo/branches.go:89 | The ratio is defined exactly when the total is positive, lies in [0, 1], and times the total gives the predicted count. |
| Branches.Survives | src/cmd/fdo/branches.go:84-92 | A survivor has at least `branchMinimum` samples. An edge with total 0 (ratio NaN) survives exactly when the minimum is not positive. When `high <= low` the band is empty and only the minimum filters. |
| Branches.SurvivesIff | src/cmd/fdo/branches.go:84-97 | An edge survives iff its total reaches the minimum and either its total is 0 (NaN) or `predicted <= low * total` or `predicted >= high * total`. |
| Branches.PositiveMinimumDefinesRatios | src/cmd/fdo/branches.go:86-89 | With the minimum at least 1, every survivor has a defined hit ratio. |
| Branches.SurvivorsShrinkWithMinimum | src/cmd/fdo/branches.go:86-88 | Raising the minimum can only remove survivors. |
| Branches.SurvivorsGrowAsBandNarrows | src/cmd/fdo/branches.go:90-92 | Narrowing the band (low, high) can only add survivors. |
| Branches.SortedByTotalRanks | src/cmd/fdo/branches.go:98 | Sorting the collected survivors by negated total gives every survivor once, with totals non-increasing. |
| Branches.SortedByHitRanks | src/cmd/fdo/branches.go:99 | Sorting the collected survivors gives every survivor once, with defined hit ratios non-decreasing. |
| Branches.Rank | src/cmd/fdo/branches.go:82-99 | Both rankings enumerate exactly the survivors, each once. The first is ordered by total, descending. The second is ordered by hit ratio, ascending, among the edges whose ratio is defined. |
| Branches.RankedByHitTotally | src/cmd/fdo/branches.go:86-99 | With `branchMinimum >= 1` every survivor has a defined ratio, and the hit ranking is non-decreasing between every pair. |
| Branches.IsJump | src/cmd/fdo/branches.go:124-130 | When `source + 16` fits in 64 bits, a jump is exactly `source < target <= source + 16`. When the `uint64` sum wraps, no target is a jump. |
| Branches.IsJumpForUserSource | src/cmd/fdo/branches.go:124-130 | For a user-space source the `uint64` sum `source + 16` cannot wrap, so `isJump` is exactly `source < target <= source + 16`. |
| Branches.Decide | src/cmd/fdo/branches.go:133-151 | The `if / else if` chain marks an edge exactly when it is a jump and its ratio is strictly below `low` or strictly above `high`. A NaN ratio is never marked. |
| Branches.Candidates | src/cmd/fdo/branches.go:132-152 | Every candidate is an edge of the ranking and a jump. |
| Branches.CandidatesIff | src/cmd/fdo/branches.go:132-152 | Over the total ranking, an edge is a candidate iff it is in the table, survives filtering, is a jump, and has `predicted < low * total` or `predicted > high * total`. |
| Branches.CandidateIff | src/cmd/fdo/branches.go:132-152 | The same, for one edge. |
| Branches.RatioComparisons | src/cmd/fdo/branches.go:134-145 | The float comparisons `hit < x` and `hit > x` are false for NaN and otherwise are the integer-scaled comparisons with `x * total`. |
| Branches.ThresholdRatioNeverCandidate | src/cmd/fdo/branches.go:90-152 | An edge whose hit ratio equals `low` or `high` exactly (with `low <= high`) survives filtering but is never a candidate. |
| Fdo.BrstackRecordFields | src/cmd/fdo/branches.go:31-55 | A record matched by the brstack pattern has the fields the callback indexes, and an address of up to 16 digits always parses. |
| Fdo.BrstackEdge | src/cmd/fdo/branches.go:31-62 | For a record matched by the brstack pattern, whatever the length of its address fields, the edge is the two hexadecimal values when both are at most `userTop`, and there is none otherwise. |
| Fdo.DeliveredAreBrstack | src/cmd/fdo/branches.go:31-46 | Every record the loop delivers under the brstack matcher has the pattern's shape, so the callback never indexes out of range. |
| Fdo.Analyze | src/cmd/fdo/branches.go:79-152 | The rankings are those of the aggregated table, and the candidates are exactly the edges `CandidatesIff` describes. With no survivor there is no candidate. |
| Fdo.ExtractBranches | src/cmd/fdo/branches.go:45-152 | The result is a failure exactly when the first stopping read is an error, and then carries that error; the partial table is dropped. Otherwise the stream was read up to a zero-byte end-of-file (or the end of the reads), no match is left in the buffer, and the result holds the rankings and candidates of the table aggregated from exactly the records the loop delivered, in stream order. |
| Scenarios.EntryIsBrstack | src/cmd/fdo/branches.go:31 | An entry printed with `%x` addresses and flag `P`, `M` or `-` has the shape of the brstack pattern `0x[0-9a-f]+/0x[0-9a-f]+/(M\|P\|-)/(X\|-)/(A\|-)/[0-9]+`. |
| Scenarios.EdgeOfEntry | src/cmd/fdo/branches.go:48-62 | A printed entry is counted for exactly its own edge, unless an address is above `userTop`. |
| Scenarios.AggregateAppend | src/cmd/fdo/branches.go:46-77 | Aggregating two batches one after the other is aggregating their concatenation. |
| Scenarios.RepeatSkipped | src/cmd/fdo/branches.go:48-58 | Any number of skipped records leave the table unchanged. |
| Scenarios.RepeatAccepted | src/cmd/fdo/branches.go:65-74 | n copies of an accepted record add n to the counter its flag names. |
| Scenarios.WorkloadAggregate | src/cmd/fdo/branches.go:45-77 | `hot` mispredicted samples of 0x1000->0x1008 and `cold` predicted samples of 0x2000->0x3000 give exactly those two counters. |
| Scenarios.HotBranchScenario | src/cmd/fdo/branches.go:84-152 | With the defaults, an always mispredicted short jump with at least 100 samples is the only survivor and the only candidate. An edge with fewer than 100 samples is dropped. |
| Scenarios.HotBranchTable | src/cmd/fdo/branches.go:84-152 | For a table holding one edge with at least 100 misses and another with fewer than 100 hits, the first edge is the only survivor and the only candidate under the defaults. |
| Scenarios.KernelScenario | src/cmd/fdo/branches.go:56-58 | An entry with an address above `userTop` (such as `0xffffffffffff0000`) never creates a table entry, however often it occurs. |
| Scenarios.ClassificationExamples | src/cmd/fdo/branches.go:13-15 | With thresholds 0.10 and 0.90: ratio 0.05 marks a jump but not a non-jump; 0.95 marks a jump; an edge predicted half the time is filtered out. |

## Left out

- The `perf` subprocess is not modelled: `exec.Command`, `StdoutPipe`, `Start`, `Wait`, a non-zero exit status and stderr passthrough (src/cmd/fdo/fdo.go:113-130, 165-168). It is process I/O, replaced by the sequence of read results.
- `recordPerf`, `main`, `usage`, flag parsing, `applyPerf` and `applyBranches` are not modelled. They are a wrapper over `syscall.Exec`, command-line handling, and plain delegation.
- The regular-expression engine is not modelled. `find` is any function meeting the match contract. The matcher is not required to report the leftmost match, so the properties proved hold for every such matcher.
- Chunk-boundary invariance is not stated. The greedy trailing cycle-count group of the brstack pattern can be cut short at a read boundary, so the records do depend on where reads split the stream. Only groups 1-3 are used.
- Memory bounds are not stated: the buffer grows without limit while no match is found.
- `objfile` is not modelled: `PCLineTable`, `Disasm` and `PCToLine`, together with their errors at the start of `extractBranches`, and all `debug` reporting (src/cmd/fdo/branches.go:35-43, 106-117, 154-164). This is external symbolization and logging. The analysis returns the rankings and candidates that would be printed.
- `src/cmd/fdo/doc.go` holds package documentation only.
- Go map iteration order and `sort.Slice` are not modelled; `Rank` sorts by insertion sort. Go's iteration order and unstable sort are unspecified, so the contracts allow any order among equal keys, and `Rank`'s insertion sort is one such order.
- Branches.RankedByHit: orders only the edges with a defined hit ratio. Go's `sortedByHit` is ordered only when no survivor has a total of 0, which `branchMinimum >= 1` guarantees (`RankedByHitTotally`). With `branchMinimum <= 0`, an edge with a NaN ratio can survive. Go's `hits[i] < hits[j]` is false both ways against NaN, so NaN counts as equal to every ratio. The insertion sort `sort.Slice` uses on short slices then leaves `[0.95, NaN, 0.05]` as it is, with the defined ratios out of order.
- Branches.Rank: its hit ranking puts NaN edges first and orders the rest. In the NaN case above, this is not an order Go's `sort.Slice` is bound to produce.
- Branches.HitRatio: exact reals instead of `float64`. Rounding of `predicted / total`, of the thresholds and of `%2.2f` is not modelled, so a ratio within rounding distance of a threshold may be classified differently by the Go program.
- Branches.Observe: the `int` counters are unbounded. Go's 64-bit `predicted++` could only wrap after 2^63 samples of one edge.
- Hex.ParseHex: reports failure without saying which error `ParseUint` returned, because the callback only tests whether there was one.
