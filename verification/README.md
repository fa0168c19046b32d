# PARCS prime finder, modelled in Dafny

The PARCS prime finder looks for the primes of an inclusive integer range
`[start, end]` in three ways:

- **`parallel_prime_finder_pyro4.py`**: a master (`PrimeSolver.solve`)
  splits the range into one contiguous chunk per worker, giving the first
  `total % W` chunks one extra number. It sends each chunk to a worker's
  `find_primes_in_range`, collects the replies with `reduce_results`
  (which accepts a list, a comma-separated string or a `.value`-boxed
  object), and sorts the result.
- **`prime_solution.py`**: the same job in the PARCS solution-file form.
  Its worker handles 2 on its own, then tries only odd candidates and
  reports progress every tenth of them. `myreduce` concatenates the
  workers' lists, and `write_output` writes them joined by `", "`, or
  `No primes found`.
- **`sequential_prime_finder.py`**: a single-process finder. It uses the
  Sieve of Eratosthenes when `end - start < 1000000` and trial division
  otherwise.

All three share the same trial-division `is_prime`.

The model has one module per core file, over four shared modules:

- `Primality` (primality.dfy): what a prime is, `PrimesIn(lo, hi)` (the ascending primes of `[lo, hi]`), and the trial-division method.
- `Text` (text.dfy): the parts of Python's `int()`, `str()`, `strip()`, `split(',')` and `join` that the finders use.
- `Lists` (lists.dfy): concatenation, and the ascending sort that stands in for `list.sort()`.
- `Wrappers` (wrappers.dfy): `Option`.
- `ParallelPrimeFinder`, `PrimeSolution` and `SequentialPrimeFinder`: the three core files.
- `CrossCheck`: the comparison the performance script makes between the sequential and the parallel results.

Every finder is proved to return exactly `PrimesIn(start, end)`, as integers
or as their decimal text. Because of that, the finders all agree with one
another, whatever the number of workers.

Two facts about the code are worth stating up front:

- The final list is sorted but not deduplicated. No deduplication is
  needed, because the chunks are proved disjoint.
- The empty-result marker is `No primes found`.

## Model

| member | source | states |
|---|---|---|
| Primality.TrialDivision | parallel_prime_finder_pyro4.py:17-38 | `is_prime(n)` returns true exactly when n is prime (n >= 2 with no divisor in 2..n-1); the early exits for n < 2, n == 2 and even n, and the odd divisors 3, 5, ... below isqrt(n)+1 decide it; the copies `Solver.is_prime` (prime_solution.py:105-125) and the sequential `is_prime` (sequential_prime_finder.py:10-31) are the same loop and share this member |
| Primality.IsqrtBounds | parallel_prime_finder_pyro4.py:34 | the integer root r standing in for `int(math.sqrt(n))` satisfies r*r <= n < (r+1)*(r+1) |
| Primality.OddWithoutSmallDivisorIsPrime | parallel_prime_finder_pyro4.py:34-38 | an odd n >= 3 with no odd divisor in 3..isqrt(n) is prime, so the loop may stop at the square root and skip even divisors |
| Primality.DivisorFound | parallel_prime_finder_pyro4.py:35-37 | a divisor i with 3 <= i <= isqrt(n) shows that n is not prime, so the early `return False` is right |
| Primality.NextOddCandidate | parallel_prime_finder_pyro4.py:35-36 | after an odd i that does not divide n, the next candidate i + 2 is odd and no odd number below it divides n |
| Primality.SmallDivisor | parallel_prime_finder_pyro4.py:34-37 | a composite n has a divisor e >= 2 with e*e <= n, odd when n is odd |
| Primality.EvenNotPrime | parallel_prime_finder_pyro4.py:31-32 | an even number other than 2 is not prime |
| Primality.PrimesInExactly | parallel_prime_finder_pyro4.py:161-167 | the reference list PrimesIn(lo, hi) is strictly ascending and holds exactly the primes x with lo <= x <= hi |
| Primality.PrimesInSplit | parallel_prime_finder_pyro4.py:80-100 | the primes of two adjacent ranges, one after the other, are the primes of their union |
| Primality.PrimesInBelowTwo | sequential_prime_finder.py:44-45 | a range ending below 2 holds no prime |
| Primality.PrimesInStartsWithTwo | prime_solution.py:78-80 | the primes of a range start with 2 exactly when 2 lies in the range |
| ParallelPrimeFinder.FindPrimesInRange | parallel_prime_finder_pyro4.py:143-166 | the worker returns the decimal texts of exactly the primes of [int(start_str), int(end_str)], ascending; when int() rejects a bound there is no result |
| ParallelPrimeFinder.ScanRange | parallel_prime_finder_pyro4.py:160-163 | the loop over `range(start, end + 1)` collects the decimal texts of exactly the primes of [start, end], ascending |
| ParallelPrimeFinder.SendTask | parallel_prime_finder_pyro4.py:91-92 | a dispatch sends `str(current_start)`, `str(chunk_end)`, and the reply is the list of the chunk's primes as decimal text |
| ParallelPrimeFinder.MapPhase | parallel_prime_finder_pyro4.py:74-94 | the map loop over W >= 1 workers dispatches exactly the tasks of `Schedule` for chunk = total // W and rem = total % W, and each reply carries its own chunk's primes |
| ParallelPrimeFinder.ChunkBounds | parallel_prime_finder_pyro4.py:82-94 | in turn i, when the W chunks together end exactly at end: `chunk_end` never exceeds end, so the clamp leaves it alone; the next chunk starts at lo + Offset(i + 1); the chunk is dispatched (current_start <= end) exactly when chunk >= 1 or i < rem, and is then non-empty |
| ParallelPrimeFinder.OffsetMonotone | parallel_prime_finder_pyro4.py:82-85 | with chunk >= 0, later chunks never start before earlier ones |
| ParallelPrimeFinder.OffsetFlat | parallel_prime_finder_pyro4.py:82-85 | with chunk == 0, the chunks after the first rem all start at the same place, so they are empty |
| ParallelPrimeFinder.OffsetClosed | parallel_prime_finder_pyro4.py:82-94 | the start of chunk i, counted from lo, is i*chunk + min(i, rem): each earlier chunk adds chunk, and the first rem add one more |
| ParallelPrimeFinder.ScheduleTiles | parallel_prime_finder_pyro4.py:80-94 | when the W chunks together end exactly at end, after any i turns chunk i starts Offset(i) after start, and the chunks dispatched so far (`Laid`) tile [start, start of chunk i - 1], one per turn while chunk >= 1 (min(i, rem) otherwise), with worker numbers 0, 1, ... and sizes chunk or chunk + 1 |
| ParallelPrimeFinder.ScheduleStep | parallel_prime_finder_pyro4.py:82-94 | one turn of the map loop keeps `Laid`: the chunk it dispatches, if any, extends the tiling with the next worker number and its balanced size |
| ParallelPrimeFinder.ScheduleInverted | parallel_prime_finder_pyro4.py:87-94 | when start > end, every chunk the loop dispatches is inverted (holds no number) |
| ParallelPrimeFinder.SchedulePartitions | parallel_prime_finder_pyro4.py:74-94 | for start <= end, the dispatched chunks tile [start, end] without gap or overlap; there are min(W, total) of them; each holds total // W numbers, plus one for the first total % W; for start > end, every chunk is empty |
| ParallelPrimeFinder.ChunkCount | parallel_prime_finder_pyro4.py:74-76 | W chunks of total // W with total % W extra use up the range exactly, and min(W, total) is W when chunks are non-empty, total % W otherwise |
| ParallelPrimeFinder.TilesBounds | parallel_prime_finder_pyro4.py:80-94 | a tiled range is non-empty, or empty with nothing dispatched |
| ParallelPrimeFinder.TilesTotalSize | parallel_prime_finder_pyro4.py:74-85 | the chunk sizes sum to end - start + 1 |
| ParallelPrimeFinder.TilesPartition | parallel_prime_finder_pyro4.py:80-94 | every number of the range lies in exactly one dispatched chunk |
| ParallelPrimeFinder.TilesCover | parallel_prime_finder_pyro4.py:80-94 | every number of the range lies in some dispatched chunk |
| ParallelPrimeFinder.TilesOrdered | parallel_prime_finder_pyro4.py:80-94 | earlier chunks lie wholly before later ones |
| ParallelPrimeFinder.TilesPrimes | parallel_prime_finder_pyro4.py:97-100 | the chunks' primes, in worker order, are the primes of the whole range |
| ParallelPrimeFinder.EmptyChunksPrimes | parallel_prime_finder_pyro4.py:87-94 | chunks that are all inverted contribute no prime |
| ParallelPrimeFinder.ReduceResults | parallel_prime_finder_pyro4.py:111-140 | the loop computes `Reduced`: each reply unwrapped from `.value`, a list item by item, a string by comma-separated piece, anything else nothing, in worker order; a piece int() rejects leaves no result |
| ParallelPrimeFinder.ReducedPrefix | parallel_prime_finder_pyro4.py:124-137 | one more reply extends the collected list by what that reply parses to |
| ParallelPrimeFinder.ReducedFailsAt | parallel_prime_finder_pyro4.py:133-136 | a reply with a piece int() rejects leaves no result, whatever the other replies hold |
| ParallelPrimeFinder.ParseItems | parallel_prime_finder_pyro4.py:133 | `[int(p) for p in primes if p]`: empty items are skipped and int() reads the rest; what it promises is stated by ParseItemsAccepts, ParseItemsSkipsEmpty and ParseItemsDecimals |
| ParallelPrimeFinder.ParseItemsAccepts | parallel_prime_finder_pyro4.py:133 | a list payload parses exactly when int() accepts every non-empty item, and gives at most one integer per item |
| ParallelPrimeFinder.ParsePieces | parallel_prime_finder_pyro4.py:136 | `[int(p.strip()) for p in pieces if p.strip()]`: blank pieces are skipped and int() reads the stripped rest; what it promises is stated by ParsePiecesAccepts, ParsePiecesSkipsBlank and ParsePiecesAsItems |
| ParallelPrimeFinder.ParsePiecesAccepts | parallel_prime_finder_pyro4.py:136 | a string payload parses exactly when int() accepts every piece that is not blank once stripped, and gives at most one integer per piece |
| ParallelPrimeFinder.ReducedAppend | parallel_prime_finder_pyro4.py:124-137 | reducing two groups of replies gives the first group's integers followed by the second's |
| ParallelPrimeFinder.AppendParsedAssociative | parallel_prime_finder_pyro4.py:133-137 | extending the collected list is associative, failures included |
| ParallelPrimeFinder.ReducedIgnoresBoxing | parallel_prime_finder_pyro4.py:126-129 | a reply boxed in `.value` reduces exactly as its bare payload |
| ParallelPrimeFinder.ParseItemsSkipsEmpty | parallel_prime_finder_pyro4.py:133 | an empty item of a list payload is dropped |
| ParallelPrimeFinder.ParsePiecesSkipsBlank | parallel_prime_finder_pyro4.py:136 | an empty or whitespace-only piece of a string payload is dropped |
| ParallelPrimeFinder.OtherContributesNothing | parallel_prime_finder_pyro4.py:132-137 | a reply that is neither list nor string contributes nothing wherever it stands |
| ParallelPrimeFinder.ParseItemsDecimals | parallel_prime_finder_pyro4.py:133 | a list of decimal texts parses back to the integers printed |
| ParallelPrimeFinder.ParsePiecesAsItems | parallel_prime_finder_pyro4.py:136 | the string branch is the list branch applied to the stripped pieces |
| ParallelPrimeFinder.StripAllPadded | parallel_prime_finder_pyro4.py:136 | whitespace after each comma is gone once the pieces are stripped |
| ParallelPrimeFinder.ParsedJoinedAsList | parallel_prime_finder_pyro4.py:132-137 | a comma-joined string, with whitespace after each comma, parses as the list of its stripped pieces |
| ParallelPrimeFinder.ParsedDecimalsEitherForm | parallel_prime_finder_pyro4.py:132-137 | the primes as a list of decimal texts and as one comma-joined string parse to the same integers |
| ParallelPrimeFinder.ReducedChunkReplies | parallel_prime_finder_pyro4.py:97 | replies carrying each chunk's decimal primes reduce to the chunks' primes, chunk after chunk |
| ParallelPrimeFinder.Solve | parallel_prime_finder_pyro4.py:62-108 | with no worker nothing is dispatched and there is no result; with W >= 1 the result is exactly the ascending primes of [start, end], whatever W |
| PrimeSolution.FirstCandidate | prime_solution.py:77-84 | the first candidate tried is odd, at least start, and at least 3 once 2 is handled |
| PrimeSolution.ScanStart | prime_solution.py:78-84 | before the loop the found list is "2" when 2 is in range and empty otherwise, and it holds every prime below the first candidate |
| PrimeSolution.ScanStep | prime_solution.py:94-96 | testing an odd candidate and skipping the even number after it keeps the list equal to the primes so far |
| PrimeSolution.ReportEvery | prime_solution.py:91 | `step_report` is at least 1, so `count % step_report` never divides by zero |
| PrimeSolution.Candidates | prime_solution.py:90 | `total` is positive exactly when the first candidate lies in range, and then the total-th odd candidate is the last one at or below end |
| PrimeSolution.Progress | prime_solution.py:96-100 | the percentages printed after the first n candidates; ProgressReports and ProgressBounded state what they are |
| PrimeSolution.ProgressReports | prime_solution.py:96-100 | after n candidates there are n // step_report reports, the k-th being `((k + 1) * step_report * 100) // total` |
| PrimeSolution.Percentage | prime_solution.py:99 | `(count * 100) // total` lies in 0..100 while count <= total |
| PrimeSolution.ProgressBounded | prime_solution.py:90-100 | every reported progress lies in 0..100, and a scan whose length is a multiple of the step ends at 100 |
| PrimeSolution.OddScan | prime_solution.py:75-103 | the odd-only scan returns the decimal texts of exactly the primes of [start, end], ascending, and reports progress after every `step_report`-th of the `total` candidates |
| PrimeSolution.ScanCandidates | prime_solution.py:89-100 | the loop over the odd candidates from the first one, started with the primes below it, ends with the decimal primes of [start, end] and the reports after every `step_report`-th candidate |
| PrimeSolution.FindPrimesInRange | prime_solution.py:62-103 | the worker returns the decimal primes of [int(start_str), int(end_str)], every progress report in 0..100; no result when int() rejects a bound |
| PrimeSolution.FirstIsTwo | prime_solution.py:78-80 | the worker's list starts with "2" exactly when start <= 2 <= end |
| PrimeSolution.Carried | prime_solution.py:136-143 | one payload per reply, in worker order |
| PrimeSolution.MyReduce | prime_solution.py:129-145 | the loop computes `Concatenated`: the replies' lists joined in worker order, `.value` unwrapped; no result when a payload is not a list |
| PrimeSolution.ConcatenatedFails | prime_solution.py:139-143 | once a payload is not a list, later replies cannot rescue the result |
| PrimeSolution.ConcatenatedLists | prime_solution.py:134-145 | there is a result exactly when every payload is a list; it is their concatenation, and its length is the sum of their lengths |
| PrimeSolution.FlattenDecimals | prime_solution.py:140-143 | concatenating per-chunk decimal lists is the decimal list of the concatenated chunks |
| PrimeSolution.MyReduceChunks | prime_solution.py:49-52 | replies of the workers' scans over tiled chunks concatenate to the decimal primes of the whole range |
| PrimeSolution.OutputText | prime_solution.py:165-169 | the output text is non-empty and ends with a newline |
| PrimeSolution.OutputTextReadsBack | prime_solution.py:165-169 | the text is `No primes found` exactly when there are no primes; read back through `reduce_results`' string branch, it gives the primes back, and `No primes found` is rejected |
| PrimeSolution.NoPrimesTextRejected | prime_solution.py:168-169 | `No primes found` plus newline, as a string payload, is rejected by int() |
| PrimeSolution.JoinedDecimalsReadBack | prime_solution.py:166-169 | the primes joined by ", " plus newline parse back to the primes |
| PrimeSolution.ParsedWithTrailer | prime_solution.py:166-169 | a trailing character that strip() removes from the last piece does not change the parse |
| PrimeSolution.ParsedCommaSpace | prime_solution.py:166 | text joined by ", " parses as the list of its stripped pieces |
| SequentialPrimeFinder.StrikeMultiples | sequential_prime_finder.py:54-55 | the inner loop clears exactly the multiples of i from i*i up to limit, and leaves every other entry as it was; entries only go from true to false |
| SequentialPrimeFinder.NextMultiple | sequential_prime_finder.py:54 | stepping j by i moves from one multiple of i to the next, with no multiple in between |
| SequentialPrimeFinder.NoSmallFactorNext | sequential_prime_finder.py:52-55 | after the pass for i, an entry survives exactly when it survived the earlier passes and is not a multiple of i from i*i on |
| SequentialPrimeFinder.StruckEarlier | sequential_prime_finder.py:53 | skipping an i already cleared loses nothing: its multiples from i*i on were cleared by a smaller factor |
| SequentialPrimeFinder.SurvivorsArePrime | sequential_prime_finder.py:52-58 | after the passes for 2..isqrt(limit), an index k >= 2 of 0..limit is still true exactly when k is prime |
| SequentialPrimeFinder.Collect | sequential_prime_finder.py:58 | the comprehension gives a strictly ascending list of exactly the indices in 2..limit still marked |
| SequentialPrimeFinder.CollectPrimes | sequential_prime_finder.py:58 | from marks true exactly at the primes, the comprehension gives the primes of [2, limit] |
| SequentialPrimeFinder.Sieve | sequential_prime_finder.py:34-59 | `sieve_of_eratosthenes(limit)` is [] below 2 and otherwise the ascending primes of [2, limit] |
| SequentialPrimeFinder.AtLeast | sequential_prime_finder.py:80 | the filter keeps exactly the elements >= start |
| SequentialPrimeFinder.AtLeastPrimes | sequential_prime_finder.py:79-80 | filtering the sieve's primes by p >= start gives the primes of [start, end] |
| SequentialPrimeFinder.FindPrimesSequential | sequential_prime_finder.py:62-90 | both branches, sieve or trial division, give the ascending primes of [start, end], none when start > end or end < 2 |
| CrossCheck.PrimeSetOfRange | test_performance.py:70 | the set of a finder's result is the set of primes between the bounds |
| CrossCheck.CompareAlgorithms | test_performance.py:51-73 | with at least one worker, `set(seq_primes) == set(par_primes)` always holds; with none, the solver gives no result to compare |
| Text.IntToString | parallel_prime_finder_pyro4.py:164 | `str(n)` is non-empty, digits with an optional leading minus, ending in a digit |
| Text.ParseIntToString | parallel_prime_finder_pyro4.py:156-164 | `int(str(n)) == n` |
| Text.ParseInt | parallel_prime_finder_pyro4.py:156-157 | `int()` of a text: surrounding whitespace, an optional sign and ASCII digits, `None` for anything else (the ValueError); ParseIntToString, ParseIntStripped and NoPrimesTextRejected state what it promises |
| Text.DigitsValueOfNat | parallel_prime_finder_pyro4.py:156 | the digits of n read back as n |
| Text.ParseIntStripped | parallel_prime_finder_pyro4.py:136 | `int(p.strip()) == int(p)`: int() ignores surrounding whitespace itself |
| Text.TrimLeft | parallel_prime_finder_pyro4.py:136 | `lstrip()` shortens the text and leaves no leading whitespace |
| Text.TrimRight | parallel_prime_finder_pyro4.py:136 | `rstrip()` shortens the text and leaves no trailing whitespace |
| Text.TrimLeftSuffix | parallel_prime_finder_pyro4.py:136 | `lstrip()` leaves a suffix of the text |
| Text.TrimRightPrefix | parallel_prime_finder_pyro4.py:136 | `rstrip()` leaves a prefix of the text |
| Text.Strip | parallel_prime_finder_pyro4.py:136 | `str.strip()`, as `rstrip()` after `lstrip()`; StripNoPadding, StripTwice, StripLeadingSpace and StripUnpadded state what it promises |
| Text.StripNoPadding | parallel_prime_finder_pyro4.py:136 | `strip()` shortens the text and leaves no whitespace at either end |
| Text.StripUnpadded | parallel_prime_finder_pyro4.py:136 | text without surrounding whitespace is left alone by strip() |
| Text.StripLeadingSpace | parallel_prime_finder_pyro4.py:136 | leading whitespace makes no difference to strip() |
| Text.StripTwice | parallel_prime_finder_pyro4.py:136 | strip() is idempotent |
| Text.StripTrailingSpace | prime_solution.py:169 | a trailing newline after unpadded text is removed by strip() |
| Text.Split | parallel_prime_finder_pyro4.py:136 | `split(',')` gives at least one piece |
| Text.SplitWithoutSeparator | parallel_prime_finder_pyro4.py:136 | text without a comma splits into itself alone |
| Text.SplitAtFirst | parallel_prime_finder_pyro4.py:136 | the first comma ends the first piece |
| Text.SplitJoin | parallel_prime_finder_pyro4.py:136 | splitting on c a join by c + pad gives the pieces back, each after the first led by pad |
| Text.Join | prime_solution.py:166 | `', '.join(output)`; SplitJoin and JoinAppendLast state what it promises (splitting it gives the pieces back) |
| Text.JoinAppendLast | prime_solution.py:166-169 | text written after a join lands at the end of the last piece |
| Text.DecimalsAppend | parallel_prime_finder_pyro4.py:164 | the decimal texts of two lists are those of each, one after the other |
| Lists.SortAscending | parallel_prime_finder_pyro4.py:100 | the sort returns an ascending permutation of its input |
| Lists.Insert | parallel_prime_finder_pyro4.py:100 | inserting into an ascending list keeps it ascending and adds exactly the element |
| Lists.SortAscendingSorted | parallel_prime_finder_pyro4.py:100 | sorting an ascending list leaves it unchanged |
| Lists.SortedUnique | parallel_prime_finder_pyro4.py:100 | two ascending lists with the same elements are equal |
| Lists.SortAscendingOrderIndependent | parallel_prime_finder_pyro4.py:97-100 | the sorted result depends only on the elements collected, not on the order the workers' replies come in |
| Lists.FlattenLength | prime_solution.py:140-143 | the concatenation's length is the sum of the lists' lengths |
| Lists.FlattenAppend | prime_solution.py:140-143 | concatenation respects splitting the replies into two groups |

Small proof steps used inside the proofs above have no row of their own:
`PrimeSolution.StaysOdd`, `CountBelowTotal`, `CountAtEnd`, `CountSteps`,
`ProgressNext` and `JoinStart`; `Text.DigitNotSpace` and `NoCommaInDecimal`;
`ParallelPrimeFinder.TilesExtend`, `BalancedExtend`, `StepSent` and
`NonPositiveQuotient`; `Primality.MulMonotone`, `MulAtLeast`, `ModUnique`,
`AboveIsqrt` and `IsqrtBelow`.

## Left out

- Remote calls: Pyro4, `@expose` and the PARCS worker objects are not modelled. A worker call is the worker's scan applied to the chunk, made in the map loop's order, as the code makes them one after another.
- Timing and metrics: `time.time()`, execution times, speedup, efficiency and throughput are floating-point measurements and are not modelled.
- Floating square root: `int(math.sqrt(n))` is modelled as the exact integer square root `Isqrt`. Float rounding for very large n is not modelled.
- Chunking in prime_solution.py: `Solver.solve` (prime_solution.py:34-58) splits the range with a float `step`, whose boundaries depend on float rounding (Python 3) or integer division (Python 2). It is not modelled. `PrimeSolution.MyReduceChunks` takes any tiling of the range instead, such as the integer split of the Pyro4 solver.
- File and console I/O: `read_input`, opening and writing the output file (only the written text is modelled, by `PrimeSolution.OutputText`), every `print`, every `main()` and argument parser, and test_with_input.py.
- PrimeSolution.OddScan: the progress lines are returned as a list of percentages instead of being printed, and the count and total printed beside them are left out.
- ParallelPrimeFinder.Solve: the inconsistent Python return value (`[]` with no workers, a `(primes, time)` tuple otherwise) is modelled as `NoWorkers | Found(primes)` without the time.
- ParallelPrimeFinder.ReduceResults: list payloads hold strings only. A list holding ints, a value boxed twice, and the TypeError `int()` raises on other item types are not modelled. A piece `int()` rejects makes the whole result `None` instead of an exception.
- PrimeSolution.MyReduce: adding a non-list payload to the list (a TypeError in Python) is modelled as `None`.
- Text.ParseInt: Python's `int()` also accepts underscores between digits and non-ASCII digits. Only an optional sign and ASCII digits surrounded by whitespace are modelled.
- Lists.SortAscending: Python's `list.sort()` is not part of this model. An insertion sort with the same result (the unique ascending permutation) stands in for it.
- CrossCheck.CompareAlgorithms: test_performance.py imports `find_primes_parallel` from a `parallel_prime_finder` module that is not part of this model. The comparison is made against the Pyro4 solver `ParallelPrimeFinder.Solve` instead, and the printing of the differences is left out.
- The rest of test_performance.py and test_with_input.py (benchmark loops and formatting) is not modelled.
- SequentialPrimeFinder.Sieve: the model's array has no size limit. Python's `[True] * (limit + 1)` raises MemoryError when the list does not fit in memory, and OverflowError once `limit + 1` exceeds `sys.maxsize`; the model returns the primes in both cases.
- SequentialPrimeFinder.FindPrimesSequential: the sieve branch is taken whenever `end - start < 1000000`, however large `end` is, so for a short range far out (say start = 10**12, end = 10**12 + 10) Python fails with the sieve's MemoryError; the model returns the primes of the range instead.
- Primality.TrialDivision: `math.sqrt(n)` raises OverflowError for n >= 2**1024 (also in the sieve's bound), which the model does not reproduce; `Isqrt` is exact for every n.
- Text.ParseInt: besides underscores and non-ASCII digits, CPython refuses by default to convert text of more than 4300 digits with `int()`, and an int of more than 4300 digits with `str()` (ValueError); the model has no digit limit, so `ParseIntToString` holds for every integer.
