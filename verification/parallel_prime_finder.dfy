/**
 * The Pyro4 prime finder: the worker's range scan, the master's split of
 * [start, end] into one contiguous chunk per worker, the reduce step that
 * collects the workers' replies whatever shape they arrive in, and the final
 * sort. A worker call is the worker's scan applied to the chunk, made one
 * after another as the map loop makes them.
 */
module ParallelPrimeFinder {
  import opened Wrappers
  import opened Primality
  import opened Text
  import opened Lists

  /** What a worker's reply carries: a list of strings, one comma-separated string, or something else. */
  datatype Payload = List(items: seq<string>) | Str(text: string) | Other

  /** A reply as the remote-call layer hands it over: inside an object with a `.value` attribute, or bare. */
  datatype WorkerReply = Boxed(payload: Payload) | Raw(payload: Payload)

  /** One dispatched chunk: the worker's index and the inclusive range it was sent. */
  datatype Task = Task(worker: nat, lo: int, hi: int)

  /** The result of `solve`: no worker to send anything to, or the primes found, ascending. */
  datatype Outcome = NoWorkers | Found(primes: seq<int>)

  function Min(a: int, b: int): int {
    if a <= b then a else b
  }

  // ---------------------------------------------------------------------
  // The worker

  /**
   * find_primes_in_range(start_str, end_str): every n of [start, end] that
   * passes is_prime, as decimal text, in increasing order; `None` when a
   * bound is not an integer (int() raises).
   */
  method FindPrimesInRange(startStr: string, endStr: string) returns (primes: Option<seq<string>>)
    ensures ParseInt(startStr).None? || ParseInt(endStr).None? ==> primes.None?
    ensures ParseInt(startStr).Some? && ParseInt(endStr).Some? ==>
      primes == Some(Decimals(PrimesIn(ParseInt(startStr).value, ParseInt(endStr).value)))
  {
    var start := ParseInt(startStr);
    var end := ParseInt(endStr);
    if start.None? || end.None? {
      return None;
    }
    var found := ScanRange(start.value, end.value);
    return Some(found);
  }

  /** The worker's loop over `range(start, end + 1)`, appending `str(num)` for each num that passes is_prime. */
  method ScanRange(lo: int, hi: int) returns (found: seq<string>)
    ensures found == Decimals(PrimesIn(lo, hi))
  {
    found := [];
    var num := lo;
    while num <= hi
      invariant lo <= num && (num <= hi + 1 || num == lo)
      invariant found == Decimals(PrimesIn(lo, num - 1))
    {
      var prime := TrialDivision(num);
      DecimalsAppend(PrimesIn(lo, num - 1), if prime then [num] else []);
      if prime {
        found := found + [IntToString(num)];
      }
      num := num + 1;
    }
  }

  // ---------------------------------------------------------------------
  // Reduce

  /** Two partial results one after the other; a failure anywhere is a failure. */
  function AppendParsed(x: Option<seq<int>>, y: Option<seq<int>>): Option<seq<int>> {
    if x.Some? && y.Some? then Some(x.value + y.value) else None
  }

  function AsList(n: Option<int>): Option<seq<int>> {
    if n.Some? then Some([n.value]) else None
  }

  /** `[int(p) for p in items if p]`: empty strings are skipped; a string int() rejects fails the whole list. */
  function ParseItems(items: seq<string>): Option<seq<int>> {
    if |items| == 0 then Some([])
    else if items[0] == "" then ParseItems(items[1..])
    else AppendParsed(AsList(ParseInt(items[0])), ParseItems(items[1..]))
  }

  /** `[int(p.strip()) for p in pieces if p.strip()]`: blank pieces are skipped. */
  function ParsePieces(pieces: seq<string>): Option<seq<int>> {
    if |pieces| == 0 then Some([])
    else if Strip(pieces[0]) == "" then ParsePieces(pieces[1..])
    else AppendParsed(AsList(ParseInt(Strip(pieces[0]))), ParsePieces(pieces[1..]))
  }

  /** A list payload parses exactly when int() accepts every non-empty item, and gives at most one integer per item. */
  lemma {:induction false} ParseItemsAccepts(items: seq<string>)
    ensures ParseItems(items).Some? <==> forall k :: 0 <= k < |items| && items[k] != "" ==> ParseInt(items[k]).Some?
    ensures ParseItems(items).Some? ==> |ParseItems(items).value| <= |items|
  {
    if |items| > 0 {
      ParseItemsAccepts(items[1..]);
      assert forall k :: 0 < k < |items| ==> items[k] == items[1..][k - 1];
    }
  }

  /** A string payload parses exactly when int() accepts every piece that is not blank once stripped, and gives at most one integer per piece. */
  lemma {:induction false} ParsePiecesAccepts(pieces: seq<string>)
    ensures ParsePieces(pieces).Some? <==> forall k :: 0 <= k < |pieces| && Strip(pieces[k]) != "" ==> ParseInt(Strip(pieces[k])).Some?
    ensures ParsePieces(pieces).Some? ==> |ParsePieces(pieces).value| <= |pieces|
  {
    if |pieces| > 0 {
      ParsePiecesAccepts(pieces[1..]);
      assert forall k :: 0 < k < |pieces| ==> pieces[k] == pieces[1..][k - 1];
    }
  }

  /** The integers one payload contributes: a list item by item, a string piece by comma-separated piece, anything else nothing. */
  function Parsed(p: Payload): Option<seq<int>> {
    match p
    case List(items) => ParseItems(items)
    case Str(text) => ParsePieces(Split(text, ','))
    case Other => Some([])
  }

  /** What reduce_results collects from the replies, in worker order. */
  function Reduced(replies: seq<WorkerReply>): Option<seq<int>> {
    if |replies| == 0 then Some([])
    else AppendParsed(Reduced(replies[..|replies| - 1]), Parsed(replies[|replies| - 1].payload))
  }

  /** reduce_results(mapped): unwrap each reply, parse what it carries, and extend the collected list with it. */
  method ReduceResults(mapped: seq<WorkerReply>) returns (allPrimes: Option<seq<int>>)
    ensures allPrimes == Reduced(mapped)
  {
    var collected: seq<int> := [];
    for k := 0 to |mapped|
      invariant Reduced(mapped[..k]) == Some(collected)
    {
      var primes: Payload;
      match mapped[k] {
        case Boxed(value) => primes := value;
        case Raw(result) => primes := result;
      }
      var parsed := Parsed(primes);
      ReducedPrefix(mapped, k);
      if parsed.None? {
        ReducedFailsAt(mapped, k);
        return None;
      }
      collected := collected + parsed.value;
    }
    assert mapped[..|mapped|] == mapped;
    return Some(collected);
  }

  /** One more reply extends what the earlier ones reduce to. */
  lemma ReducedPrefix(mapped: seq<WorkerReply>, k: nat)
    requires k < |mapped|
    ensures Reduced(mapped[..k + 1]) == AppendParsed(Reduced(mapped[..k]), Parsed(mapped[k].payload))
  {
    assert mapped[..k + 1][..k] == mapped[..k];
  }

  /** A reply that cannot be parsed makes the whole reduce fail. */
  lemma {:induction false} ReducedFailsAt(mapped: seq<WorkerReply>, k: nat)
    requires k < |mapped| && Parsed(mapped[k].payload).None?
    ensures Reduced(mapped).None?
    decreases |mapped|
  {
    var n := |mapped| - 1;
    if k < n {
      var init := mapped[..n];
      assert init[k] == mapped[k];
      ReducedFailsAt(init, k);
    }
  }

  /** The replies of two groups of workers reduce to the first group's integers followed by the second's. */
  lemma {:induction false} ReducedAppend(a: seq<WorkerReply>, b: seq<WorkerReply>)
    ensures Reduced(a + b) == AppendParsed(Reduced(a), Reduced(b))
    decreases |b|
  {
    if |b| == 0 {
      assert a + b == a;
      if Reduced(a).Some? {
        assert Reduced(a).value + [] == Reduced(a).value;
      }
    } else {
      var init, last := b[..|b| - 1], b[|b| - 1];
      assert (a + b)[..|a + b| - 1] == a + init;
      assert (a + b)[|a + b| - 1] == last;
      calc {
        Reduced(a + b);
        AppendParsed(Reduced(a + init), Parsed(last.payload));
        { ReducedAppend(a, init); }
        AppendParsed(AppendParsed(Reduced(a), Reduced(init)), Parsed(last.payload));
        { AppendParsedAssociative(Reduced(a), Reduced(init), Parsed(last.payload)); }
        AppendParsed(Reduced(a), AppendParsed(Reduced(init), Parsed(last.payload)));
        AppendParsed(Reduced(a), Reduced(b));
      }
    }
  }

  lemma AppendParsedAssociative(x: Option<seq<int>>, y: Option<seq<int>>, z: Option<seq<int>>)
    ensures AppendParsed(AppendParsed(x, y), z) == AppendParsed(x, AppendParsed(y, z))
  {
    if x.Some? && y.Some? && z.Some? {
      assert x.value + y.value + z.value == x.value + (y.value + z.value);
    }
  }

  /** Whether a reply came boxed or bare makes no difference to the result. */
  lemma {:induction false} ReducedIgnoresBoxing(a: seq<WorkerReply>, b: seq<WorkerReply>)
    requires |a| == |b|
    requires forall k :: 0 <= k < |a| ==> a[k].payload == b[k].payload
    ensures Reduced(a) == Reduced(b)
  {
    if |a| > 0 {
      ReducedIgnoresBoxing(a[..|a| - 1], b[..|b| - 1]);
    }
  }

  /** An empty item of a list payload is skipped. */
  lemma {:induction false} ParseItemsSkipsEmpty(a: seq<string>, b: seq<string>)
    ensures ParseItems(a + [""] + b) == ParseItems(a + b)
    decreases |a|
  {
    if |a| > 0 {
      assert (a + [""] + b)[1..] == a[1..] + [""] + b;
      assert (a + b)[1..] == a[1..] + b;
      ParseItemsSkipsEmpty(a[1..], b);
    } else {
      assert a + [""] + b == [""] + b;
      assert a + b == b;
    }
  }

  /** A piece of a string payload that is empty or only whitespace is skipped. */
  lemma {:induction false} ParsePiecesSkipsBlank(a: seq<string>, p: string, b: seq<string>)
    requires Strip(p) == ""
    ensures ParsePieces(a + [p] + b) == ParsePieces(a + b)
    decreases |a|
  {
    if |a| > 0 {
      assert (a + [p] + b)[1..] == a[1..] + [p] + b;
      assert (a + b)[1..] == a[1..] + b;
      ParsePiecesSkipsBlank(a[1..], p, b);
    } else {
      assert a + [p] + b == [p] + b;
      assert a + b == b;
    }
  }

  /** A reply that carries neither a list nor a string contributes nothing. */
  lemma OtherContributesNothing(a: seq<WorkerReply>, r: WorkerReply, b: seq<WorkerReply>)
    requires r.payload == Other
    ensures Reduced(a + [r] + b) == Reduced(a + b)
  {
    ReducedAppend(a + [r], b);
    ReducedAppend(a, [r]);
    ReducedAppend(a, b);
    assert Reduced([r]) == Some([]) by {
      var none: seq<WorkerReply> := [r][..0];
      assert none == [];
      assert Reduced([r]) == AppendParsed(Reduced(none), Parsed(r.payload));
      assert Reduced(none).value + Parsed(r.payload).value == [];
    }
    if Reduced(a).Some? {
      assert Reduced(a).value + [] == Reduced(a).value;
    }
  }

  /** A list of decimal texts parses back to the integers it was printed from. */
  lemma {:induction false} ParseItemsDecimals(ns: seq<int>)
    ensures ParseItems(Decimals(ns)) == Some(ns)
  {
    if |ns| > 0 {
      ParseIntToString(ns[0]);
      assert Decimals(ns)[1..] == Decimals(ns[1..]);
      ParseItemsDecimals(ns[1..]);
      assert ns == [ns[0]] + ns[1..];
    }
  }

  /** Each piece stripped of its whitespace, as the string branch does before testing and parsing it. */
  function StripAll(pieces: seq<string>): (r: seq<string>)
    ensures |r| == |pieces|
  {
    seq(|pieces|, k requires 0 <= k < |pieces| => Strip(pieces[k]))
  }

  /** The string branch is the list branch applied to the stripped pieces. */
  lemma {:induction false} ParsePiecesAsItems(pieces: seq<string>)
    ensures ParsePieces(pieces) == ParseItems(StripAll(pieces))
  {
    if |pieces| > 0 {
      assert StripAll(pieces)[1..] == StripAll(pieces[1..]);
      ParsePiecesAsItems(pieces[1..]);
    }
  }

  /** Padding after each comma makes no difference once the pieces are stripped. */
  lemma StripAllPadded(parts: seq<string>, pad: string)
    requires |parts| > 0
    requires forall k :: 0 <= k < |pad| ==> IsSpace(pad[k])
    ensures StripAll(Padded(parts, pad)) == StripAll(parts)
  {
    var pieces := Padded(parts, pad);
    forall k | 0 <= k < |parts| ensures StripAll(pieces)[k] == StripAll(parts)[k] {
      if k > 0 {
        StripLeadingSpace(pad, parts[k]);
      }
    }
  }

  /**
   * A comma-joined string, with optional whitespace after each comma, parses
   * as the list of its stripped pieces would: blank pieces are dropped either way.
   */
  lemma ParsedJoinedAsList(parts: seq<string>, pad: string)
    requires forall k :: 0 <= k < |pad| ==> IsSpace(pad[k])
    requires forall k :: 0 <= k < |parts| ==> ',' !in parts[k]
    ensures Parsed(Str(Join(parts, [','] + pad))) == Parsed(List(StripAll(parts)))
  {
    if |parts| == 0 {
      assert Split("", ',') == [""];
      assert Strip("") == "";
    } else {
      SpaceHasNoComma(pad);
      SplitJoin(parts, ',', pad);
      ParsePiecesAsItems(Padded(parts, pad));
      StripAllPadded(parts, pad);
    }
  }

  lemma SpaceHasNoComma(pad: string)
    requires forall k :: 0 <= k < |pad| ==> IsSpace(pad[k])
    ensures ',' !in pad
  {
    assert !IsSpace(',');
  }

  /** Decimal texts carry no whitespace to strip. */
  lemma StripAllDecimals(ns: seq<int>)
    ensures StripAll(Decimals(ns)) == Decimals(ns)
  {
    var parts := Decimals(ns);
    forall k | 0 <= k < |parts| ensures StripAll(parts)[k] == parts[k] {
      StripUnpadded(parts[k]);
    }
  }

  /** The list form and the comma-separated form of the same primes reduce to the same integers. */
  lemma ParsedDecimalsEitherForm(ns: seq<int>, pad: string)
    requires forall k :: 0 <= k < |pad| ==> IsSpace(pad[k])
    ensures Parsed(List(Decimals(ns))) == Some(ns)
    ensures Parsed(Str(Join(Decimals(ns), [','] + pad))) == Some(ns)
  {
    ParseItemsDecimals(ns);
    var parts := Decimals(ns);
    forall k | 0 <= k < |parts| ensures ',' !in parts[k] {
      NoCommaInDecimal(ns[k]);
    }
    StripAllDecimals(ns);
    ParsedJoinedAsList(parts, pad);
  }

  /** The primes each dispatched chunk holds, chunk by chunk. */
  function ChunkPrimes(tasks: seq<Task>): (r: seq<seq<int>>)
    ensures |r| == |tasks|
  {
    seq(|tasks|, k requires 0 <= k < |tasks| => PrimesIn(tasks[k].lo, tasks[k].hi))
  }

  /** Replies that carry each chunk's primes as decimal text reduce to those primes, chunk after chunk. */
  lemma {:induction false} ReducedChunkReplies(tasks: seq<Task>, mapped: seq<WorkerReply>)
    requires |mapped| == |tasks|
    requires forall k :: 0 <= k < |tasks| ==> mapped[k].payload == List(Decimals(PrimesIn(tasks[k].lo, tasks[k].hi)))
    ensures Reduced(mapped) == Some(Flatten(ChunkPrimes(tasks)))
  {
    if |tasks| > 0 {
      var n := |tasks| - 1;
      ReducedChunkReplies(tasks[..n], mapped[..n]);
      assert ChunkPrimes(tasks)[..n] == ChunkPrimes(tasks[..n]);
      ParseItemsDecimals(PrimesIn(tasks[n].lo, tasks[n].hi));
    }
  }

  // ---------------------------------------------------------------------
  // Map: the split of [lo, hi] into chunks

  /** The number of integers a chunk covers. */
  function Size(t: Task): int {
    t.hi - t.lo + 1
  }

  /** The chunks cover [lo, hi] left to right: none empty, each starting where the previous one ended, no gap and no overlap. */
  predicate Tiles(tasks: seq<Task>, lo: int, hi: int) {
    (|tasks| == 0 ==> lo == hi + 1)
    && (|tasks| > 0 ==> tasks[0].lo == lo && tasks[|tasks| - 1].hi == hi)
    && (forall k :: 0 <= k < |tasks| ==> tasks[k].lo <= tasks[k].hi)
    && (forall k :: 0 < k < |tasks| ==> tasks[k].lo == tasks[k - 1].hi + 1)
  }

  /** The tasks were given to workers 0, 1, 2, ... in order, each task holding `base` integers and the first `extra` one more. */
  predicate Balanced(tasks: seq<Task>, base: int, extra: int) {
    forall k :: 0 <= k < |tasks| ==> tasks[k].worker == k && Size(tasks[k]) == base + (if k < extra then 1 else 0)
  }

  /** With fewer integers than workers the quotient is negative, or zero with nothing over, so every chunk comes out empty. */
  lemma NonPositiveQuotient(total: int, workers: int)
    requires total <= 0 && workers >= 1
    ensures total / workers + (if total % workers > 0 then 1 else 0) <= 0
  {
    var q, r := total / workers, total % workers;
    if q >= 0 {
      MulMonotone(0, workers, q);
      assert total == workers * q + r;
      assert r == 0;
    }
  }

  /** Where chunk i starts, counted from lo, when every chunk holds `chunk` integers and the first `rem` one more. */
  function Offset(i: nat, chunk: int, rem: int): int {
    if i == 0 then 0 else Offset(i - 1, chunk, rem) + chunk + (if i - 1 < rem then 1 else 0)
  }

  /** The closed form of Offset. */
  lemma {:induction false} OffsetClosed(i: nat, chunk: int, rem: int)
    requires rem >= 0
    ensures Offset(i, chunk, rem) == i * chunk + Min(i, rem)
  {
    if i > 0 {
      OffsetClosed(i - 1, chunk, rem);
      assert i * chunk == (i - 1) * chunk + chunk;
    }
  }

  /** Each reply is the worker's scan of its chunk, in decimal text. */
  predicate RepliesMatch(tasks: seq<Task>, mapped: seq<WorkerReply>) {
    |mapped| == |tasks|
    && forall k :: 0 <= k < |tasks| ==> mapped[k] == Raw(List(Decimals(PrimesIn(tasks[k].lo, tasks[k].hi))))
  }

  predicate AllEmpty(tasks: seq<Task>) {
    forall k :: 0 <= k < |tasks| ==> tasks[k].hi < tasks[k].lo
  }

  /** Chunk starts never move backwards. */
  lemma {:induction false} OffsetMonotone(i: nat, j: nat, chunk: int, rem: int)
    requires i <= j && chunk >= 0
    ensures Offset(i, chunk, rem) <= Offset(j, chunk, rem)
    decreases j
  {
    if i < j {
      OffsetMonotone(i, j - 1, chunk, rem);
    }
  }

  /** With empty chunks, the starts stop moving once the chunks with an extra integer are past. */
  lemma {:induction false} OffsetFlat(i: nat, j: nat, rem: int)
    requires rem <= i <= j
    ensures Offset(i, 0, rem) == Offset(j, 0, rem)
    decreases j
  {
    if i < j {
      OffsetFlat(i, j - 1, rem);
    }
  }

  /**
   * One turn of the map loop, when the W chunks together end exactly at hi:
   * chunk i never runs past hi (the clamp leaves it alone), chunk i + 1
   * starts right after it, and it is sent exactly when it holds an integer.
   */
  lemma ChunkBounds(lo: int, hi: int, workers: nat, chunk: int, rem: int, i: nat, current: int)
    requires i < workers && chunk >= 0
    requires lo + Offset(workers, chunk, rem) == hi + 1
    requires current == lo + Offset(i, chunk, rem)
    ensures var chunkEnd := current + chunk - 1 + (if i < rem then 1 else 0);
      && chunkEnd <= hi
      && chunkEnd + 1 == lo + Offset(i + 1, chunk, rem)
      && (current <= hi <==> chunk >= 1 || i < rem)
      && (current <= hi ==> current <= chunkEnd)
  {
    OffsetMonotone(i + 1, workers, chunk, rem);
    if chunk == 0 && i >= rem {
      OffsetFlat(i, workers, rem);
    }
  }

  /** A non-empty chunk that starts right after a tiling extends it. */
  lemma TilesExtend(tasks: seq<Task>, lo: int, mid: int, t: Task)
    requires Tiles(tasks, lo, mid) && t.lo == mid + 1 && t.lo <= t.hi
    ensures Tiles(tasks + [t], lo, t.hi)
  {
  }

  lemma BalancedExtend(tasks: seq<Task>, base: int, extra: int, t: Task)
    requires Balanced(tasks, base, extra)
    requires t.worker == |tasks| && Size(t) == base + (if |tasks| < extra then 1 else 0)
    ensures Balanced(tasks + [t], base, extra)
  {
  }

  /**
   * Where the chunk after chunk i starts, chunk i starting at `current`: its
   * end is `total // W` integers on (one more for the first `total % W`
   * chunks), clamped to hi.
   */
  function NextStart(current: int, hi: int, chunk: int, rem: int, i: nat): int {
    Min(current + chunk - 1 + (if i < rem then 1 else 0), hi) + 1
  }

  /** What turn i of the map loop sends: its chunk, to worker i, when the chunk starts at or before hi. */
  function Sent(current: int, hi: int, chunk: int, rem: int, i: nat): seq<Task> {
    if current <= hi then [Task(i, current, NextStart(current, hi, chunk, rem, i) - 1)] else []
  }

  /** Where chunk i starts in the map loop of PrimeSolver.solve: chunk 0 at lo, each later one just after the previous chunk's end. */
  function ChunkStart(lo: int, hi: int, chunk: int, rem: int, i: nat): int {
    if i == 0 then lo else NextStart(ChunkStart(lo, hi, chunk, rem, i - 1), hi, chunk, rem, i - 1)
  }

  /** The tasks the map loop has sent after i turns. */
  function Schedule(lo: int, hi: int, chunk: int, rem: int, i: nat): (tasks: seq<Task>)
    ensures |tasks| <= i
  {
    if i == 0 then []
    else Schedule(lo, hi, chunk, rem, i - 1) + Sent(ChunkStart(lo, hi, chunk, rem, i - 1), hi, chunk, rem, i - 1)
  }

  /**
   * After i turns of the map loop, when the W chunks together end exactly
   * at hi: chunk i starts Offset(i) integers after lo, and the tasks sent so
   * far are a balanced tiling of everything before it, i of them when every
   * chunk holds at least one integer, otherwise only the first min(i, rem).
   */
  predicate Laid(tasks: seq<Task>, start: int, lo: int, chunk: int, rem: int, i: nat) {
    && start == lo + Offset(i, chunk, rem)
    && |tasks| == (if chunk >= 1 then i else Min(i, rem))
    && Tiles(tasks, lo, start - 1)
    && Balanced(tasks, chunk, rem)
  }

  /** Over a range the W chunks end exactly at, every prefix of the map loop's turns is Laid. */
  lemma {:induction false} ScheduleTiles(lo: int, hi: int, workers: nat, chunk: int, rem: int, i: nat)
    requires i <= workers && chunk >= 0 && rem >= 0
    requires lo + Offset(workers, chunk, rem) == hi + 1
    ensures Laid(Schedule(lo, hi, chunk, rem, i), ChunkStart(lo, hi, chunk, rem, i), lo, chunk, rem, i)
  {
    if i > 0 {
      ScheduleTiles(lo, hi, workers, chunk, rem, i - 1);
      ScheduleStep(lo, hi, workers, chunk, rem, i - 1,
        Schedule(lo, hi, chunk, rem, i - 1), ChunkStart(lo, hi, chunk, rem, i - 1));
    }
  }

  /** One turn of the map loop keeps Laid. */
  lemma ScheduleStep(lo: int, hi: int, workers: nat, chunk: int, rem: int, i: nat, tasks: seq<Task>, current: int)
    requires i < workers && chunk >= 0 && rem >= 0
    requires lo + Offset(workers, chunk, rem) == hi + 1
    requires Laid(tasks, current, lo, chunk, rem, i)
    ensures Laid(tasks + Sent(current, hi, chunk, rem, i), NextStart(current, hi, chunk, rem, i), lo, chunk, rem, i + 1)
  {
    ChunkBounds(lo, hi, workers, chunk, rem, i, current);
    if current <= hi {
      StepSent(lo, hi, chunk, rem, i, tasks, current);
    } else {
      assert tasks + Sent(current, hi, chunk, rem, i) == tasks;
    }
  }

  /** A turn whose chunk holds integers sends it right after the tiling so far. */
  lemma StepSent(lo: int, hi: int, chunk: int, rem: int, i: nat, tasks: seq<Task>, current: int)
    requires Laid(tasks, current, lo, chunk, rem, i)
    requires chunk >= 1 || i < rem
    requires current <= NextStart(current, hi, chunk, rem, i) - 1
    requires NextStart(current, hi, chunk, rem, i) == lo + Offset(i + 1, chunk, rem)
    requires NextStart(current, hi, chunk, rem, i) - 1 == current + chunk - 1 + (if i < rem then 1 else 0)
    ensures Laid(tasks + Sent(current, hi, chunk, rem, i), NextStart(current, hi, chunk, rem, i), lo, chunk, rem, i + 1)
  {
    var task := Task(i, current, NextStart(current, hi, chunk, rem, i) - 1);
    assert current <= hi;
    TilesExtend(tasks, lo, current - 1, task);
    BalancedExtend(tasks, chunk, rem, task);
  }

  /** Over an inverted range (start > end) every chunk the loop sends is inverted too, so it holds no integer. */
  lemma {:induction false} ScheduleInverted(lo: int, hi: int, chunk: int, rem: int, i: nat)
    requires hi < lo && chunk + (if rem > 0 then 1 else 0) <= 0
    ensures AllEmpty(Schedule(lo, hi, chunk, rem, i))
  {
    if i > 0 {
      ScheduleInverted(lo, hi, chunk, rem, i - 1);
    }
  }

  /**
   * `worker.find_primes_in_range(str(start), str(end))`: the bounds travel
   * as decimal text, and the worker reads them back unchanged, so the reply
   * is the list of the chunk's primes in decimal text, not wrapped in a
   * `.value` holder.
   */
  method SendTask(start: int, end: int) returns (reply: WorkerReply)
    ensures reply == Raw(List(Decimals(PrimesIn(start, end))))
  {
    ParseIntToString(start);
    ParseIntToString(end);
    var primes := FindPrimesInRange(IntToString(start), IntToString(end));
    reply := Raw(List(primes.value));
  }

  /**
   * The map loop of PrimeSolver.solve: chunk i starts where chunk i-1 ended,
   * holds `total // W` integers plus one for the first `total % W` chunks, is
   * clamped to `hi`, and is sent to worker i only when it starts at or before
   * `hi`. `tasks` is the log of what was sent (the source prints it).
   */
  method MapPhase(lo: int, hi: int, workers: nat) returns (tasks: seq<Task>, mapped: seq<WorkerReply>)
    requires workers >= 1
    ensures tasks == Schedule(lo, hi, (hi - lo + 1) / workers, (hi - lo + 1) % workers, workers)
    ensures |mapped| == |tasks|
    ensures forall k :: 0 <= k < |tasks| ==>
      mapped[k] == Raw(List(Decimals(PrimesIn(tasks[k].lo, tasks[k].hi))))
  {
    var total := hi - lo + 1;
    var chunkSize := total / workers;
    var remaining := total % workers;
    tasks, mapped := [], [];
    var current := lo;
    for i := 0 to workers
      invariant current == ChunkStart(lo, hi, chunkSize, remaining, i)
      invariant tasks == Schedule(lo, hi, chunkSize, remaining, i)
      invariant RepliesMatch(tasks, mapped)
    {
      var chunkEnd := current + chunkSize - 1;
      if i < remaining {
        chunkEnd := chunkEnd + 1;
      }
      if chunkEnd > hi {
        chunkEnd := hi;
      }
      if current <= hi {
        var reply := SendTask(current, chunkEnd);
        tasks := tasks + [Task(i, current, chunkEnd)];
        mapped := mapped + [reply];
      }
      current := chunkEnd + 1;
    }
  }

  /**
   * What the map loop sends, in the source's terms: over a non-empty range,
   * min(W, total) chunks to workers 0, 1, ..., tiling the range, the first
   * `total % W` one integer larger than the rest; over an inverted range,
   * nothing but inverted chunks.
   */
  lemma SchedulePartitions(lo: int, hi: int, workers: nat)
    requires workers >= 1
    ensures var tasks := Schedule(lo, hi, (hi - lo + 1) / workers, (hi - lo + 1) % workers, workers);
      && (lo <= hi ==> Tiles(tasks, lo, hi))
      && (lo <= hi ==> |tasks| == Min(workers, hi - lo + 1))
      && (lo <= hi ==> Balanced(tasks, (hi - lo + 1) / workers, (hi - lo + 1) % workers))
      && (hi < lo ==> AllEmpty(tasks))
  {
    var total := hi - lo + 1;
    var chunk, rem := total / workers, total % workers;
    if lo <= hi {
      ChunkCount(lo, hi, workers, chunk, rem);
      ScheduleTiles(lo, hi, workers, chunk, rem, workers);
    } else {
      NonPositiveQuotient(total, workers);
      ScheduleInverted(lo, hi, chunk, rem, workers);
    }
  }

  /** After the last turn of the map loop over a non-empty range: the whole range is used, by min(W, total) chunks. */
  lemma ChunkCount(lo: int, hi: int, workers: int, chunk: int, rem: int)
    requires lo <= hi && workers >= 1
    requires hi - lo + 1 == workers * chunk + rem && 0 <= rem < workers
    ensures chunk >= 0 && lo + Offset(workers, chunk, rem) == hi + 1
    ensures chunk >= 1 ==> workers <= hi - lo + 1
    ensures chunk < 1 ==> Min(workers, hi - lo + 1) == Min(workers, rem) == hi - lo + 1
  {
    OffsetClosed(workers, chunk, rem);
    if chunk >= 1 {
      MulAtLeast(workers, chunk);
    } else if chunk < 0 {
      MulMonotone(0, workers, -chunk);
      assert false;
    }
  }

  /** A tiled range is non-empty, or empty with lo just above hi. */
  lemma {:induction false} TilesBounds(tasks: seq<Task>, lo: int, hi: int)
    requires Tiles(tasks, lo, hi)
    ensures lo <= hi + 1
  {
    if |tasks| > 0 {
      var n := |tasks| - 1;
      assert Tiles(tasks[..n], lo, tasks[n].lo - 1);
      TilesBounds(tasks[..n], lo, tasks[n].lo - 1);
    }
  }

  /** The chunks' primes, chunk after chunk, are the primes of the whole range. */
  lemma {:induction false} TilesPrimes(tasks: seq<Task>, lo: int, hi: int)
    requires Tiles(tasks, lo, hi)
    ensures Flatten(ChunkPrimes(tasks)) == PrimesIn(lo, hi)
  {
    if |tasks| > 0 {
      var n := |tasks| - 1;
      var last := tasks[n];
      assert Tiles(tasks[..n], lo, last.lo - 1);
      TilesBounds(tasks[..n], lo, last.lo - 1);
      TilesPrimes(tasks[..n], lo, last.lo - 1);
      assert ChunkPrimes(tasks)[..n] == ChunkPrimes(tasks[..n]);
      PrimesInSplit(lo, last.lo - 1, hi);
    }
  }

  function TotalSize(tasks: seq<Task>): int {
    if |tasks| == 0 then 0 else TotalSize(tasks[..|tasks| - 1]) + Size(tasks[|tasks| - 1])
  }

  /** The chunk sizes add up to the size of the range. */
  lemma {:induction false} TilesTotalSize(tasks: seq<Task>, lo: int, hi: int)
    requires Tiles(tasks, lo, hi)
    ensures TotalSize(tasks) == hi - lo + 1
  {
    if |tasks| > 0 {
      var n := |tasks| - 1;
      assert Tiles(tasks[..n], lo, tasks[n].lo - 1);
      TilesTotalSize(tasks[..n], lo, tasks[n].lo - 1);
    }
  }

  /** Every integer of the range lies in exactly one chunk. */
  lemma TilesPartition(tasks: seq<Task>, lo: int, hi: int, x: int)
    requires Tiles(tasks, lo, hi) && lo <= x <= hi
    ensures exists k :: 0 <= k < |tasks| && tasks[k].lo <= x <= tasks[k].hi
    ensures forall j, k :: 0 <= j < |tasks| && 0 <= k < |tasks| && tasks[j].lo <= x <= tasks[j].hi && tasks[k].lo <= x <= tasks[k].hi ==> j == k
  {
    TilesOrdered(tasks, lo, hi);
    TilesCover(tasks, lo, hi, x);
  }

  /** Earlier chunks lie wholly before later ones. */
  lemma TilesOrdered(tasks: seq<Task>, lo: int, hi: int)
    requires Tiles(tasks, lo, hi)
    ensures forall j, k :: 0 <= j < k < |tasks| ==> tasks[j].hi < tasks[k].lo
  {
    forall j, k | 0 <= j < k < |tasks| ensures tasks[j].hi < tasks[k].lo {
      var m := j + 1;
      while m < k
        invariant j < m <= k
        invariant tasks[j].hi < tasks[m].lo
      {
        m := m + 1;
      }
    }
  }

  lemma {:induction false} TilesCover(tasks: seq<Task>, lo: int, hi: int, x: int)
    requires Tiles(tasks, lo, hi) && lo <= x <= hi
    ensures exists k :: 0 <= k < |tasks| && tasks[k].lo <= x <= tasks[k].hi
  {
    var n := |tasks| - 1;
    if x < tasks[n].lo {
      assert Tiles(tasks[..n], lo, tasks[n].lo - 1);
      TilesCover(tasks[..n], lo, tasks[n].lo - 1, x);
      var k :| 0 <= k < n && tasks[..n][k].lo <= x <= tasks[..n][k].hi;
    }
  }

  /** Chunks that are all empty hold no primes. */
  lemma {:induction false} EmptyChunksPrimes(tasks: seq<Task>)
    requires forall k :: 0 <= k < |tasks| ==> tasks[k].hi < tasks[k].lo
    ensures Flatten(ChunkPrimes(tasks)) == []
  {
    if |tasks| > 0 {
      var n := |tasks| - 1;
      EmptyChunksPrimes(tasks[..n]);
      assert ChunkPrimes(tasks)[..n] == ChunkPrimes(tasks[..n]);
    }
  }

  /**
   * PrimeSolver.solve: with no workers, nothing is dispatched; otherwise map
   * the chunks onto the workers, reduce the replies and sort. The answer is
   * the primes of [lo, hi] in ascending order, whatever the number of workers.
   */
  method Solve(lo: int, hi: int, workers: nat) returns (r: Outcome)
    ensures workers == 0 ==> r == NoWorkers
    ensures workers >= 1 ==> r == Found(PrimesIn(lo, hi))
  {
    if workers == 0 {
      return NoWorkers;
    }
    var tasks, mapped := MapPhase(lo, hi, workers);
    var reduced := ReduceResults(mapped);
    ReducedChunkReplies(tasks, mapped);
    SchedulePartitions(lo, hi, workers);
    if lo <= hi {
      TilesPrimes(tasks, lo, hi);
    } else {
      EmptyChunksPrimes(tasks);
    }
    var allPrimes := reduced.value;
    PrimesInExactly(lo, hi);
    SortAscendingSorted(allPrimes);
    allPrimes := SortAscending(allPrimes);
    return Found(allPrimes);
  }
}
