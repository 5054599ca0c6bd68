# Bank reconciliation: a verified model of `Reconcile`

This project models the reconciliation routine of a small banking service
(`Reconcile` in `main.go`). It takes the ledger's system transactions and the bank
statement lines, merged from several bank files. Each system transaction, in input
order, is paired with the first bank line that is still free, has the same date,
and has an amount less than 0.50 away. A bool array marks the bank lines already
consumed, so no line is used twice. A matched difference strictly between 0.01 and
5.0 is added to the discrepancy total. Transactions without a partner are listed.
The bank lines left over are grouped by the file they came from, each group with
its count.

Layout:

- `records.dfy` (module `Records`): the record and report types, the matching rule
  `IsCandidate`, and the discrepancy band.
- `matching.dfy` (module `Matching`): the matching pass as a specification.
  `FirstFitFrom` is the scan, `Step` is one outer-loop turn, and `MatchAll` gives the
  state after the first n transactions. The lemmas prove the invariant that pass keeps.
- `grouping.dfy` (module `Grouping`): the map of unconsumed lines by file, a
  filter-per-file reference definition, and the sum of the per-file counts.
- `report.dfy` (module `Report`): `Spec`, the whole report as a function of the
  inputs, and the properties every report has.
- `reconciler.dfy` (module `Reconciler`): `Reconcile` written the way the source is
  written. It uses an `array<bool>`, nested `for` loops with `continue` and `break`,
  counters and lists that grow step by step, and a map built by appending. It is
  proved to return exactly `Spec`.
- `fixture.dfy` (module `Fixture`): the scenario of `main_test.go` and a first-fit
  example.

Amounts are exact `real`s, not `float64` (see "## Left out"). The fixture lemma
makes no claim about the discrepancy total, and neither does the test.

`Reconcile` returns an `error`, but no path sets it (main.go:290). The model
proves the error result is `None`.

The specification state also records the pairs that were formed (`Matching.Pair`).
The source never stores them. They exist only so that "no bank line is used twice"
and "the discrepancy total is the banded sum over matched pairs" can be stated.

## Model

| member | source | states |
|---|---|---|
| `Records.Abs` | main.go:243-244 | The absolute difference is non-negative and is either the difference or its negation. |
| `Records.IsCandidate` | main.go:243 | A ledger transaction and a bank line are candidates exactly when their dates are equal and their amounts differ by strictly less than 0.50 in either direction. |
| `Records.InDiscrepancyBand` | main.go:250 | A difference in the band (0.01, 5.0) is never zero. For a difference below the 0.50 match tolerance, it is in the band exactly when it exceeds 0.01. |
| `Records.BandContribution` | main.go:249-252 | A difference strictly between 0.01 and 5.0 adds exactly itself to the total. A difference at most 0.01 or at least 5.0 adds nothing. |
| `Records.UpperBandUnreachable` | main.go:243-252 | For any candidate pair, the 5.0 upper bound never decides. The pair adds its difference exactly when that difference exceeds 0.01. |
| `Matching.FirstFitFrom` | main.go:237-257 | The chosen bank line is free and is a candidate. Every line before it is consumed or is not a candidate. None means no free candidate exists at all. |
| `Matching.InitialState` | main.go:234 | At the start, one flag per bank line, all false. |
| `Matching.Step` | main.go:235-266 | One ledger turn keeps exactly one consumed flag per bank line. What the turn does is stated by `StepFirstFit`. |
| `Matching.StepFirstFit` | main.go:235-266 | A turn has two outcomes. (1) It takes the lowest-index free candidate: that line was free, only its flag changes, and the matched count rises by one. (2) No free candidate exists: nothing is consumed, and the transaction is appended to the missing list and counted. |
| `Matching.MissingIffNoCandidate` | main.go:259-266 | A ledger transaction joins the missing list exactly when no free candidate existed at its turn. Otherwise the list is unchanged. |
| `Matching.MatchAll` | main.go:234-267 | After any number of turns there is still one flag per bank line. |
| `Matching.ConsumedGrows` | main.go:239-245 | A bank line, once consumed, stays consumed for every later turn. |
| `Matching.CountTrueFlip` | main.go:245-247 | Consuming a free line raises the number of consumed lines by exactly one. |
| `Matching.BandSum` | main.go:249-252 | The banded sum of the differences of matched pairs is never negative. |
| `Matching.MatchAllPairsValid` | main.go:243-247 | Each pair joins an already-processed ledger transaction to a consumed bank line. The two are a candidate match: same date, difference below 0.50. |
| `Matching.MatchAllPairsDistinct` | main.go:239-254 | Each ledger transaction is in at most one pair, and pairs come in ledger order. No bank line is the partner of two pairs. |
| `Matching.MatchAllConsumedArePaired` | main.go:234-245 | A bank line is consumed only as the partner of some pair. |
| `Matching.MatchAllCountsAgree` | main.go:235-267 | The matched count equals the number of pairs and the number of consumed lines. The missing count equals the missing list's length. Matched plus missing equals the transactions processed. The missing list keeps ledger order. |
| `Matching.MatchAllBandSum` | main.go:244-252 | The running discrepancy total equals the banded sum over the pairs formed so far. |
| `Matching.MatchAllConsistent` | main.go:234-267 | The matching pass keeps all of the invariants above after every ledger transaction. |
| `Matching.SubsequenceKeepLast` | main.go:262-265 | Appending the current transaction to the missing list keeps it an ordered sub-list of the ledger processed so far. |
| `Grouping.GroupUnmatched` | main.go:270-278 | Appending each unconsumed line under its file never leaves an empty group, and a group holds only lines of its own file. `GroupIsFilter` states its exact contents. |
| `Grouping.UnmatchedInFile` | main.go:269-278 | The unconsumed lines of one file contain only that file's unconsumed bank lines, and contain every one of them. |
| `Grouping.GroupIsFilter` | main.go:270-278 | Appending by file gives, for each file, exactly that file's unconsumed lines in original order. A key exists only for a file that has such a line. |
| `Grouping.ToDetails` | main.go:282-288 | The report has the same files as the grouping map. Each entry carries the group's list, and its count is that list's length. |
| `Grouping.TotalRemove` | main.go:282-288 | The sum of per-file counts does not depend on the order the files are visited. |
| `Grouping.GroupTotal` | main.go:270-288 | The per-file counts add up to the number of unconsumed bank lines. |
| `Report.Spec` | main.go:229-291 | The total is the ledger size plus the bank size. The missing count equals the missing list's length. Matches are bounded by both input sizes. The discrepancy total is non-negative. |
| `Report.Conservation` | main.go:231-288 | Twice the matched count, plus the missing count, plus the per-file unmatched counts, equals the ledger size plus the bank size. |
| `Report.NoReuse` | main.go:238-277 | The matches use pairwise distinct bank lines. A line is consumed exactly when it is some pair's partner. Every reported unmatched line is a line that no pair took. |
| `Report.GroupedByFile` | main.go:270-288 | A file is a key exactly when it has an unconsumed line. Its list is its unconsumed lines in original order, all from that file, and its count is the list's length. |
| `Report.UnconsumedReported` | main.go:271-276 | Every bank line left unconsumed is reported, under its own file. |
| `Report.MissingList` | main.go:259-266 | The missing count equals the missing list's length. The list keeps ledger order. Matched plus missing is the ledger size. |
| `Report.DiscrepancyTotal` | main.go:244-252 | The discrepancy total equals the sum, over matched pairs, of each difference that lies strictly between 0.01 and 5.0. |
| `Report.ExactPairsAddNothing` | main.go:249-252 | Pairs whose amounts agree to within 0.01, including exact pairs, add nothing to the discrepancy total. |
| `Reconciler.Reconcile` | main.go:229-291 | The in-place array, nested-loop version returns exactly the report `Spec` describes, and its error result is always empty. |
| `Fixture.FixtureReport` | main_test.go:7-37 | On the test's three ledger and three bank_A lines: 6 transactions and 2 matches. TXN003 is the only missing transaction. BS003 is the only unmatched line, and bank_A.csv is the only file key. |
| `Fixture.FirstCandidateWins` | main.go:237-256 | With two free candidates, the earlier one is taken even when the later one matches exactly. Reversing the bank order changes which line is left over. |

## Left out

- `main` and `reconcillationService` (main.go:54-130) are not modelled: command-line wiring, goroutines with a wait group and a channel, JSON output and printing. The bank lines reach `Reconcile` in an order that depends on which goroutine finishes first, so the model takes the merged bank list as a given sequence.
- `readSystemTransactions` and `readBankStatements` (main.go:132-225) are not modelled: file and CSV reading, number parsing and date parsing. Their `start`/`end` arguments are only printed, so no date-window filtering exists to model.
- `float64` arithmetic: amounts are exact reals. The subtraction at main.go:243-244, `math.Abs` and the `+=` at main.go:251 carry no rounding error in the model. So the match test (`< 0.50`) and the band test (`> 0.01`) can decide differently from Go for differences at those boundaries. For example, 0.7 and 0.2 on the same date match in Go, because the float difference is 0.49999999999999994, but the exact difference is 0.5 and they do not match in the model. Likewise 100.01 and 100.00 add about 0.010000000000005 to Go's total but nothing in the model. `ExactPairsAddNothing` and `UpperBandUnreachable` hold for exact differences only.
- The `fmt.Printf` diagnostic at main.go:280 is not modelled.
- Go's `int` counters are unbounded integers in the model; 64-bit overflow is not modelled.
- The `Type` (DEBIT/CREDIT) field is carried in `SystemTransaction.kind` but is never read, as in the source.
- Go visits map keys in a random order at main.go:283. The model visits them in an arbitrary order, and the resulting map is the same either way.
- The matched pairs (`Matching.Pair`) are specification-only. `Reconcile` does not build them, just as the source does not.
