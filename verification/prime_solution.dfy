/**
 * The PARCS solution file: its worker scan, which handles 2 on its own and
 * then tries only odd candidates while counting progress; the master's
 * `myreduce`, which concatenates the workers' lists; and the text that
 * `write_output` puts in the output file. The worker's `is_prime` is the
 * trial division of Primality.
 */
module PrimeSolution {
  import opened Wrappers
  import opened Primality
  import opened Text
  import opened Lists
  import opened ParallelPrimeFinder

  // ---------------------------------------------------------------------
  // The worker

  /** The first candidate the scan tries: 3 once 2 has been handled, otherwise start, moved up to the next odd number. */
  function FirstCandidate(lo: int, hi: int): (c: int)
    ensures c % 2 == 1 && lo <= c
    ensures hi >= 2 ==> c >= 3
  {
    var start := if lo <= 2 <= hi then 3 else lo;
    if start % 2 == 0 then start + 1 else start
  }

  /** `total`: how many odd candidates the scan tries (zero or less when none). */
  function Candidates(lo: int, hi: int): (total: int)
    ensures total > 0 <==> FirstCandidate(lo, hi) <= hi
    ensures total > 0 ==> FirstCandidate(lo, hi) + 2 * (total - 1) <= hi < FirstCandidate(lo, hi) + 2 * total
  {
    (hi - FirstCandidate(lo, hi)) / 2 + 1
  }

  /** `step_report`: a progress line every tenth of the candidates, and never every zero. */
  function ReportEvery(total: int): (step: int)
    ensures step >= 1
  {
    if total / 10 > 1 then total / 10 else 1
  }

  /** The progress percentages reported after the first n candidates: one after every `step`-th. */
  function Progress(total: int, step: int, n: nat): seq<int>
    requires step >= 1 && (n > 0 ==> n <= total)
  {
    if n == 0 then []
    else Progress(total, step, n - 1) + (if n % step == 0 then [(n * 100) / total] else [])
  }

  /** One report per full step: the k-th reports the share of the first (k + 1) * step candidates. */
  lemma {:induction false} ProgressReports(total: int, step: int, n: nat)
    requires step >= 1 && (n > 0 ==> n <= total)
    ensures |Progress(total, step, n)| == n / step
    ensures forall k :: 0 <= k < |Progress(total, step, n)| ==>
      Progress(total, step, n)[k] == ((k + 1) * step * 100) / total
  {
    if n > 0 {
      ProgressReports(total, step, n - 1);
      CountSteps(n, step);
      var prev, cur := Progress(total, step, n - 1), Progress(total, step, n);
      forall k | 0 <= k < |cur| ensures cur[k] == ((k + 1) * step * 100) / total {
        if k < |prev| {
          assert cur[k] == prev[k];
        } else {
          assert (k + 1) * step == n;
        }
      }
    }
  }

  /** Counting one more candidate completes a step exactly when the count becomes a multiple of it. */
  lemma CountSteps(n: int, step: int)
    requires n >= 1 && step >= 1
    ensures n / step == (n - 1) / step + (if n % step == 0 then 1 else 0)
    ensures n % step == 0 ==> (n / step) * step == n
  {
    var q, r := (n - 1) / step, (n - 1) % step;
    if r + 1 < step {
      ModUnique(n, step, q, r + 1);
    } else {
      ModUnique(n, step, q + 1, 0);
    }
  }

  /** One more candidate adds a report exactly when its count is a multiple of the step. */
  lemma ProgressNext(total: int, step: int, n: nat)
    requires step >= 1 && n + 1 <= total
    ensures Progress(total, step, n + 1)
         == Progress(total, step, n) + (if (n + 1) % step == 0 then [((n + 1) * 100) / total] else [])
  {
  }

  /** A share of at most the whole is at most 100 percent. */
  lemma Percentage(count: int, total: int)
    requires 0 <= count <= total && total >= 1
    ensures 0 <= (count * 100) / total <= 100
  {
    var q := (count * 100) / total;
    assert count * 100 == total * q + (count * 100) % total;
    if q > 100 {
      MulMonotone(101, q, total);
    } else if q < 0 {
      MulMonotone(0, -q, total);
    }
  }

  /** Every progress percentage lies in 0..100, and a scan whose length is a multiple of the step ends by reporting 100. */
  lemma {:induction false} ProgressBounded(total: int, step: int, n: nat)
    requires step >= 1 && (n > 0 ==> n <= total)
    ensures forall k :: 0 <= k < |Progress(total, step, n)| ==> 0 <= Progress(total, step, n)[k] <= 100
    ensures n == total && n % step == 0 && n > 0 ==> Progress(total, step, n)[|Progress(total, step, n)| - 1] == 100
  {
    if n > 0 {
      ProgressBounded(total, step, n - 1);
      Percentage(n, total);
      if n == total {
        assert (n * 100) / total == 100 by {
          ModUnique(n * 100, n, 100, 0);
        }
      }
    }
  }

  /** Before the loop: the primes below the first candidate, which are [2] when 2 was handled on its own and none otherwise. */
  lemma ScanStart(lo: int, hi: int)
    ensures PrimesIn(lo, Min(FirstCandidate(lo, hi) - 1, hi)) == if lo <= 2 <= hi then [2] else []
    ensures Decimals(PrimesIn(lo, Min(FirstCandidate(lo, hi) - 1, hi))) == if lo <= 2 <= hi then ["2"] else []
  {
    assert IntToString(2) == "2";
    var c := FirstCandidate(lo, hi);
    if lo <= 2 <= hi {
      PrimesInSplit(lo, 1, 2);
      PrimesInBelowTwo(lo, 1);
      assert PrimesIn(2, 2) == [2] by {
        assert PrimesIn(2, 1) == [];
        assert IsPrime(2);
      }
    } else if lo % 2 == 0 && lo <= hi {
      assert PrimesIn(lo, lo - 1) == [];
      EvenNotPrime(lo);
    }
  }

  /** While the loop runs, the candidates tried so far number fewer than `total`. */
  lemma CountBelowTotal(start: int, hi: int, count: int)
    requires 0 <= count && start + 2 * count <= hi
    ensures count + 1 <= (hi - start) / 2 + 1
  {
  }

  /** When the loop ends, it has tried `total` candidates, or none when `total` is not positive. */
  lemma CountAtEnd(start: int, hi: int, count: int)
    requires 0 <= count && start + 2 * count > hi
    requires start + 2 * count <= hi + 2 || count == 0
    ensures count == if (hi - start) / 2 + 1 > 0 then (hi - start) / 2 + 1 else 0
  {
  }

  /** Stepping by 2 from an odd number stays on odd numbers. */
  lemma StaysOdd(start: int, count: int)
    requires start % 2 == 1
    ensures (start + 2 * count) % 2 == 1
  {
    ModUnique(start + 2 * count, 2, start / 2 + count, 1);
  }

  /** One odd candidate: the even number after it is never a prime the scan would miss. */
  lemma ScanStep(lo: int, hi: int, num: int)
    requires num % 2 == 1 && lo <= num <= hi && (hi >= 2 ==> num >= 3)
    ensures PrimesIn(lo, Min(num + 1, hi)) == PrimesIn(lo, num - 1) + (if IsPrime(num) then [num] else [])
    ensures Decimals(PrimesIn(lo, Min(num + 1, hi)))
         == Decimals(PrimesIn(lo, Min(num - 1, hi))) + (if IsPrime(num) then [IntToString(num)] else [])
  {
    if num + 1 <= hi {
      EvenNotPrime(num + 1);
    }
    DecimalsAppend(PrimesIn(lo, num - 1), if IsPrime(num) then [num] else []);
  }

  /**
   * find_primes_in_range after int(): "2" first when 2 is in range, then
   * every odd candidate from the first one up to hi that passes is_prime,
   * reporting progress every `step_report` candidates.
   */
  method OddScan(lo: int, hi: int) returns (primes: seq<string>, reports: seq<int>)
    ensures primes == Decimals(PrimesIn(lo, hi))
    ensures var total := Candidates(lo, hi);
      reports == Progress(total, ReportEvery(total), if total > 0 then total else 0)
  {
    primes := [];
    var start := lo;
    if start <= 2 && hi >= 2 {
      primes := primes + ["2"];
      start := 3;
    }
    if start % 2 == 0 {
      start := start + 1;
    }
    ScanStart(lo, hi);
    primes, reports := ScanCandidates(lo, hi, start, primes);
  }

  /** The scan's loop over the odd candidates from `start`, the primes below it already in `found`. */
  method ScanCandidates(lo: int, hi: int, start: int, found: seq<string>) returns (primes: seq<string>, reports: seq<int>)
    requires start == FirstCandidate(lo, hi)
    requires found == Decimals(PrimesIn(lo, Min(start - 1, hi)))
    ensures primes == Decimals(PrimesIn(lo, hi))
    ensures var total := Candidates(lo, hi);
      reports == Progress(total, ReportEvery(total), if total > 0 then total else 0)
  {
    primes := found;
    var total := (hi - start) / 2 + 1;
    var stepReport := ReportEvery(total);
    var count := 0;
    reports := [];
    var num := start;
    while num <= hi
      invariant num == start + 2 * count && 0 <= count
      invariant num <= hi + 2 || count == 0
      invariant count > 0 ==> count <= total
      invariant primes == Decimals(PrimesIn(lo, Min(num - 1, hi)))
      invariant reports == Progress(total, stepReport, count)
      decreases hi - num
    {
      var prime := TrialDivision(num);
      CountBelowTotal(start, hi, count);
      ProgressNext(total, stepReport, count);
      StaysOdd(start, count);
      ScanStep(lo, hi, num);
      if prime {
        primes := primes + [IntToString(num)];
      }
      count := count + 1;
      if count % stepReport == 0 {
        var progress := (count * 100) / total;
        reports := reports + [progress];
      }
      num := num + 2;
    }
    CountAtEnd(start, hi, count);
  }

  /**
   * Solver.find_primes_in_range(start_str, end_str): `None` when a bound is
   * not an integer (int() raises), otherwise the primes of [start, end] as
   * decimal text in increasing order, with the progress percentages reported.
   */
  method FindPrimesInRange(startStr: string, endStr: string) returns (primes: Option<seq<string>>, reports: seq<int>)
    ensures ParseInt(startStr).None? || ParseInt(endStr).None? ==> primes.None? && reports == []
    ensures ParseInt(startStr).Some? && ParseInt(endStr).Some? ==>
      primes == Some(Decimals(PrimesIn(ParseInt(startStr).value, ParseInt(endStr).value)))
    ensures forall k :: 0 <= k < |reports| ==> 0 <= reports[k] <= 100
  {
    var start := ParseInt(startStr);
    var end := ParseInt(endStr);
    if start.None? || end.None? {
      return None, [];
    }
    var found;
    found, reports := OddScan(start.value, end.value);
    var total := Candidates(start.value, end.value);
    ProgressBounded(total, ReportEvery(total), if total > 0 then total else 0);
    primes := Some(found);
  }

  /** The scan's list begins with "2" exactly when 2 lies in [start, end]. */
  lemma FirstIsTwo(lo: int, hi: int)
    ensures var found := Decimals(PrimesIn(lo, hi));
      (|found| > 0 && found[0] == "2") <==> lo <= 2 <= hi
  {
    var ps := PrimesIn(lo, hi);
    PrimesInStartsWithTwo(lo, hi);
    assert IntToString(2) == "2";
    if |ps| > 0 && IntToString(ps[0]) == "2" {
      ParseIntToString(ps[0]);
      ParseIntToString(2);
    }
  }

  // ---------------------------------------------------------------------
  // Reduce

  /** The list a reply carries once `.value` is unwrapped; a string or anything else cannot be added to a list. */
  function ListCarried(r: WorkerReply): Option<seq<string>> {
    match r.payload
    case List(items) => Some(items)
    case Str(_) => None
    case Other => None
  }

  /** The lists the replies carry, an empty one standing in for a reply that carries none. */
  function Carried(mapped: seq<WorkerReply>): (r: seq<seq<string>>)
    ensures |r| == |mapped|
  {
    seq(|mapped|, k requires 0 <= k < |mapped| => if ListCarried(mapped[k]).Some? then ListCarried(mapped[k]).value else [])
  }

  /** What myreduce builds from the replies, in worker order; `None` once a reply is not a list (`list + str` raises TypeError). */
  function Concatenated(mapped: seq<WorkerReply>): Option<seq<string>> {
    if |mapped| == 0 then Some([])
    else
      var init := Concatenated(mapped[..|mapped| - 1]);
      var last := ListCarried(mapped[|mapped| - 1]);
      if init.Some? && last.Some? then Some(init.value + last.value) else None
  }

  /** A failure among the first replies is a failure of the whole reduce. */
  lemma {:induction false} ConcatenatedFails(a: seq<WorkerReply>, b: seq<WorkerReply>)
    requires Concatenated(a).None?
    ensures Concatenated(a + b).None?
    decreases |b|
  {
    if |b| == 0 {
      assert a + b == a;
    } else {
      ConcatenatedFails(a, b[..|b| - 1]);
      assert (a + b)[..|a + b| - 1] == a + b[..|b| - 1];
    }
  }

  /** myreduce(mapped): start from [] and add each reply's list, unwrapping `.value` when present. */
  method MyReduce(mapped: seq<WorkerReply>) returns (output: Option<seq<string>>)
    ensures output == Concatenated(mapped)
  {
    var collected: seq<string> := [];
    for k := 0 to |mapped|
      invariant Concatenated(mapped[..k]) == Some(collected)
    {
      var primes: Payload;
      match mapped[k] {
        case Boxed(value) => primes := value;
        case Raw(result) => primes := result;
      }
      assert mapped[..k + 1][..k] == mapped[..k];
      if !primes.List? {
        ConcatenatedFails(mapped[..k + 1], mapped[k + 1..]);
        assert mapped[..k + 1] + mapped[k + 1..] == mapped;
        return None;
      }
      collected := collected + primes.items;
    }
    assert mapped[..|mapped|] == mapped;
    return Some(collected);
  }

  /**
   * myreduce succeeds exactly when every reply carries a list; it then
   * returns those lists one after the other, so its length is the sum of
   * their lengths.
   */
  lemma {:induction false} ConcatenatedLists(mapped: seq<WorkerReply>)
    ensures Concatenated(mapped).Some? <==> forall k :: 0 <= k < |mapped| ==> mapped[k].payload.List?
    ensures Concatenated(mapped).Some? ==>
      Concatenated(mapped).value == Flatten(Carried(mapped))
      && |Concatenated(mapped).value| == TotalLength(Carried(mapped))
  {
    if |mapped| > 0 {
      var n := |mapped| - 1;
      ConcatenatedLists(mapped[..n]);
      assert Carried(mapped)[..n] == Carried(mapped[..n]);
      FlattenLength(Carried(mapped));
    }
  }

  /** The lists of decimal texts of several groups, one after the other, are the decimal texts of the groups one after the other. */
  lemma {:induction false} FlattenDecimals(groups: seq<seq<int>>)
    ensures Flatten(seq(|groups|, k requires 0 <= k < |groups| => Decimals(groups[k]))) == Decimals(Flatten(groups))
  {
    if |groups| > 0 {
      var n := |groups| - 1;
      var texts := seq(|groups|, k requires 0 <= k < |groups| => Decimals(groups[k]));
      FlattenDecimals(groups[..n]);
      assert texts[..n] == seq(n, k requires 0 <= k < n => Decimals(groups[..n][k]));
      DecimalsAppend(Flatten(groups[..n]), groups[n]);
    }
  }

  /**
   * When the workers scanned the chunks of a tiling of [lo, hi], myreduce
   * gives the decimal texts of all the primes of [lo, hi] in increasing
   * order, with no sort needed.
   */
  lemma MyReduceChunks(tasks: seq<Task>, mapped: seq<WorkerReply>, lo: int, hi: int)
    requires Tiles(tasks, lo, hi) && |mapped| == |tasks|
    requires forall k :: 0 <= k < |tasks| ==> mapped[k].payload == List(Decimals(PrimesIn(tasks[k].lo, tasks[k].hi)))
    ensures Concatenated(mapped) == Some(Decimals(PrimesIn(lo, hi)))
  {
    ConcatenatedLists(mapped);
    var groups := ChunkPrimes(tasks);
    assert Carried(mapped) == seq(|groups|, k requires 0 <= k < |groups| => Decimals(groups[k]));
    FlattenDecimals(groups);
    TilesPrimes(tasks, lo, hi);
  }

  // ---------------------------------------------------------------------
  // The output file

  /** What write_output writes: the texts joined by ", ", or "No primes found" for an empty list, then a newline. */
  function OutputText(output: seq<string>): (text: string)
    ensures |text| > 0 && text[|text| - 1] == '\n'
  {
    (if |output| > 0 then Join(output, ", ") else "No primes found") + "\n"
  }

  /** A join starts with the start of its first piece. */
  lemma {:induction false} JoinStart(parts: seq<string>, sep: string)
    requires |parts| > 0 && |parts[0]| > 0
    ensures |Join(parts, sep)| > 0 && Join(parts, sep)[0] == parts[0][0]
  {
  }

  /** The text for an empty list is not a list of integers: read back through reduce_results, int() rejects it. */
  lemma NoPrimesTextRejected()
    ensures Parsed(Str("No primes found\n")) == None
  {
    var words := "No primes found";
    var text := words + "\n";
    assert text == "No primes found\n";
    assert !IsSpace(words[0]) && !IsSpace(words[|words| - 1]) && IsSpace('\n');
    StripTrailingSpace(words, '\n');
    assert ',' !in text;
    SplitWithoutSeparator(text, ',');
    StripUnpadded(words);
    assert !IsDigit(words[0]) && words[0] != '-' && words[0] != '+';
    assert ParseInt(words) == None;
    assert ParsePieces([text]) == None;
  }

  /** The joined decimal texts with their newline, read back through the comma-separated branch of reduce_results, give the integers back. */
  lemma JoinedDecimalsReadBack(ns: seq<int>)
    requires |ns| > 0
    ensures Parsed(Str(Join(Decimals(ns), ", ") + "\n")) == Some(ns)
  {
    var parts := Decimals(ns);
    var last := IntToString(ns[|ns| - 1]);
    DigitNotSpace(last[|last| - 1]);
    StripTrailingSpace(last, '\n');
    forall k | 0 <= k < |parts| ensures ',' !in parts[k] {
      NoCommaInDecimal(ns[k]);
    }
    StripAllDecimals(ns);
    ParsedWithTrailer(parts, '\n');
    ParseItemsDecimals(ns);
  }

  /** A trailing character that strip() removes from the last piece makes no difference to parsing a ", "-joined text. */
  lemma ParsedWithTrailer(parts: seq<string>, c: char)
    requires |parts| > 0 && c != ','
    requires forall k :: 0 <= k < |parts| ==> ',' !in parts[k]
    requires StripAll(parts) == parts
    requires Strip(parts[|parts| - 1] + [c]) == parts[|parts| - 1]
    ensures Parsed(Str(Join(parts, ", ") + [c])) == Parsed(List(parts))
  {
    var n := |parts| - 1;
    var moved := parts[..n] + [parts[n] + [c]];
    JoinAppendLast(parts, ", ", [c]);
    SplitLast(parts);
    StripAllSnoc(parts[..n], parts[n]);
    StripAllSnoc(parts[..n], parts[n] + [c]);
    assert StripAll(moved) == parts;
    forall k | 0 <= k < |moved| ensures ',' !in moved[k] {
      if k < n {
        assert moved[k] == parts[k];
      } else {
        assert moved[k] == parts[n] + [c];
        assert ',' !in parts[n] && ',' !in [c];
      }
    }
    ParsedCommaSpace(moved);
  }

  lemma StripAllSnoc(init: seq<string>, last: string)
    ensures StripAll(init + [last]) == StripAll(init) + [Strip(last)]
  {
    var s := init + [last];
    var r := StripAll(init) + [Strip(last)];
    assert |StripAll(s)| == |r| == |init| + 1;
    forall k | 0 <= k < |init| + 1 ensures StripAll(s)[k] == r[k] {
      if k < |init| {
        assert s[k] == init[k];
        assert r[k] == StripAll(init)[k];
      } else {
        assert s[k] == last;
        assert r[k] == Strip(last);
      }
    }
  }

  /** Text joined by ", " parses as the list of its stripped pieces. */
  lemma ParsedCommaSpace(parts: seq<string>)
    requires forall k :: 0 <= k < |parts| ==> ',' !in parts[k]
    ensures Parsed(Str(Join(parts, ", "))) == Parsed(List(StripAll(parts)))
  {
    assert ", " == [','] + " ";
    assert forall k :: 0 <= k < |" "| ==> IsSpace(" "[k]);
    ParsedJoinedAsList(parts, " ");
  }

  /**
   * The output file names no prime exactly when there is none, and read
   * back through the comma-separated branch of reduce_results (each piece
   * stripped, the trailing newline included) it gives the primes back;
   * "No primes found" does not read back at all.
   */
  lemma OutputTextReadsBack(ns: seq<int>)
    ensures OutputText(Decimals(ns)) == "No primes found\n" <==> |ns| == 0
    ensures Parsed(Str(OutputText(Decimals(ns)))) == if |ns| > 0 then Some(ns) else None
  {
    var parts := Decimals(ns);
    if |ns| > 0 {
      JoinStart(parts, ", ");
      assert OutputText(parts)[0] != 'N';
      JoinedDecimalsReadBack(ns);
    } else {
      NoPrimesTextRejected();
    }
  }
}
