/** Counters and latency histograms. */
module MetricsModel {
  const BUCKET_COUNT: nat := 14

  /** The time limit of each bucket, in seconds. */
  function Limit(i: nat): real
    requires i < BUCKET_COUNT
  {
    [0.0000005, 0.000001, 0.0000025, 0.000005, 0.00001, 0.000025, 0.00005, 0.0001,
     0.00025, 0.0005, 0.001, 0.005, 0.025, 0.1][i]
  }

  datatype CommandKind = Read | Write | Other

  const READ_COMMANDS: set<string> :=
    {"PING", "ECHO", "GET", "KEYS", "TYPE", "LGET", "LLEN", "LINDEX",
     "HGET", "HEXISTS", "HLEN", "HKEYS", "HVALS", "HGETALL"}

  const WRITE_COMMANDS: set<string> :=
    {"FLUSHALL", "SET", "DEL", "UNLINK", "EXPIRE", "RENAME", "LSET", "LPUSH", "RPUSH", "LPOP", "RPOP",
     "LREM", "HSET", "HDEL", "HMSET"}

  function ClassifyCommand(command: string): CommandKind {
    if command in READ_COMMANDS then Read
    else if command in WRITE_COMMANDS then Write
    else Other
  }

  // ------------------------------------------------- what a histogram must hold

  /** How many of the durations are at most `limit`. */
  function AtMost(durations: seq<real>, limit: real): (n: nat)
    ensures n <= |durations|
  {
    if durations == [] then 0
    else AtMost(durations[..|durations| - 1], limit) + (if durations[|durations| - 1] <= limit then 1 else 0)
  }

  function Sum(durations: seq<real>): real {
    if durations == [] then 0.0 else Sum(durations[..|durations| - 1]) + durations[|durations| - 1]
  }

  lemma {:induction false} AtMostMonotone(durations: seq<real>, low: real, high: real)
    requires low <= high
    ensures AtMost(durations, low) <= AtMost(durations, high)
  {
    if durations == [] {
    } else {
      AtMostMonotone(durations[..|durations| - 1], low, high);
    }
  }

  /** Counted without recursion: the positions whose duration is at most the limit. */
  lemma {:induction false} AtMostCounts(durations: seq<real>, limit: real)
    ensures AtMost(durations, limit) == |set i | 0 <= i < |durations| && durations[i] <= limit|
  {
    if durations == [] {
    } else {
      var n := |durations| - 1;
      var before := set i | 0 <= i < |durations[..n]| && durations[..n][i] <= limit;
      var after := set i | 0 <= i < |durations| && durations[i] <= limit;
      AtMostCounts(durations[..n], limit);
      assert after == before + (if durations[n] <= limit then {n} else {});
    }
  }

  lemma {:induction false} SumAdds(a: seq<real>, b: seq<real>)
    ensures Sum(a + b) == Sum(a) + Sum(b)
    ensures |b| == 1 ==> Sum(b) == b[0]
  {
    if b == [] {
      assert a + b == a;
    } else {
      var n := |b| - 1;
      assert (a + b)[..|a + b| - 1] == a + b[..n];
      SumAdds(a, b[..n]);
    }
  }

  class CommandLatencyStats {
    var count: nat
    var sumSeconds: real
    const buckets: array<nat>
    /** Every duration observed, in order. */
    ghost var durations: seq<real>

    /** Exactness: the counters say precisely how many observations there were, what they add up to and how
        many fit each limit. */
    ghost predicate Valid()
      reads this, buckets
    {
      && buckets.Length == BUCKET_COUNT
      && count == |durations|
      && sumSeconds == Sum(durations)
      && forall i :: 0 <= i < BUCKET_COUNT ==> buckets[i] == AtMost(durations, Limit(i))
    }

    constructor ()
      ensures Valid() && fresh(buckets) && durations == []
    {
      count, sumSeconds, durations := 0, 0.0, [];
      buckets := new nat[BUCKET_COUNT](i => 0);
    }
  }

  lemma OneMore(durations: seq<real>, d: real, limit: real)
    ensures AtMost(durations + [d], limit) == AtMost(durations, limit) + (if d <= limit then 1 else 0)
    ensures Sum(durations + [d]) == Sum(durations) + d
  {
    assert (durations + [d])[..|durations|] == durations;
  }

  method ObserveLatency(stats: CommandLatencyStats, durationSeconds: real)
    requires stats.Valid()
    modifies stats, stats.buckets
    ensures stats.Valid() && stats.durations == old(stats.durations) + [durationSeconds]
  {
    hide Limit;
    hide AtMost;
    hide Sum;
    stats.count := stats.count + 1;
    stats.sumSeconds := stats.sumSeconds + durationSeconds;
    ghost var before := stats.durations;
    ghost var more := before + [durationSeconds];
    stats.durations := more;
    OneMore(before, durationSeconds, 0.0);
    for i := 0 to BUCKET_COUNT
      invariant stats.durations == more && stats.count == |more| && stats.sumSeconds == Sum(more)
      invariant forall j :: 0 <= j < i ==> stats.buckets[j] == AtMost(more, Limit(j))
      invariant forall j :: i <= j < BUCKET_COUNT ==> stats.buckets[j] == AtMost(before, Limit(j))
    {
      OneMore(before, durationSeconds, Limit(i));
      if durationSeconds <= Limit(i) {
        stats.buckets[i] := stats.buckets[i] + 1;
      }
    }
  }

  // -------------------------------------------- the histogram a scrape would see

  /** The bucket counters as exported. */
  function Buckets(durations: seq<real>): (b: seq<nat>)
    ensures |b| == BUCKET_COUNT
  {
    seq(BUCKET_COUNT, i requires 0 <= i < BUCKET_COUNT => AtMost(durations, Limit(i)))
  }

  /** The lower end of bucket i. */
  function LowerLimit(i: nat): real
    requires i < BUCKET_COUNT
  {
    if i == 0 then 0.0 else Limit(i - 1)
  }

  /** How many observations lie above bucket i, and how many above its lower end. */
  function AboveBucket(b: seq<nat>, count: nat, i: nat): int
    requires i < |b|
  {
    count - b[i]
  }

  function AboveLower(b: seq<nat>, count: nat, i: nat): int
    requires i < |b|
  {
    if i == 0 then count else count - b[i - 1]
  }

  function Width(i: nat): real
    requires i < BUCKET_COUNT
  {
    Limit(i) - LowerLimit(i)
  }

  function Times(n: int, w: real): real {
    (n as real) * w
  }

  /** Each observation above bucket i took at least the whole width of bucket i. */
  function LowerEstimate(b: seq<nat>, count: nat, k: nat): real
    requires k <= BUCKET_COUNT == |b|
  {
    if k == 0 then 0.0
    else LowerEstimate(b, count, k - 1)
         + Times(AboveBucket(b, count, k - 1), Width(k - 1))
  }

  /** Each observation above the lower end of bucket i took at most the whole width of bucket i in it. */
  function UpperEstimate(b: seq<nat>, count: nat, k: nat): real
    requires k <= BUCKET_COUNT == |b|
  {
    if k == 0 then 0.0
    else UpperEstimate(b, count, k - 1)
         + Times(AboveLower(b, count, k - 1), Width(k - 1))
  }

  /** The share of one duration in the estimates. */
  function LowerShare(d: real, k: nat): real
    requires k <= BUCKET_COUNT
  {
    if k == 0 then 0.0
    else LowerShare(d, k - 1) + (if d > Limit(k - 1) then Width(k - 1) else 0.0)
  }

  function UpperShare(d: real, k: nat): real
    requires k <= BUCKET_COUNT
  {
    if k == 0 then 0.0
    else UpperShare(d, k - 1) +
         (if k == 1 || d > Limit(k - 2) then Width(k - 1) else 0.0)
  }

  lemma LimitsIncrease(i: nat, j: nat)
    requires i < j < BUCKET_COUNT
    ensures 0.0 < Limit(i) < Limit(j)
  {
  }

  lemma LimitsPositive(i: nat)
    requires i < BUCKET_COUNT
    ensures 0.0 < Limit(i)
  {
  }

  lemma {:induction false} LowerShareBound(d: real, k: nat)
    requires d >= 0.0 && k <= BUCKET_COUNT
    ensures LowerShare(d, k) <= d
    ensures k > 0 ==> LowerShare(d, k) <= Limit(k - 1)
    ensures k > 0 && d > Limit(k - 1) ==> LowerShare(d, k) == Limit(k - 1)
  {
    hide Limit;
    if k == 0 {
    } else {
      LimitsPositive(k - 1);
      LowerShareBound(d, k - 1);
      if k > 1 {
        LimitsIncrease(k - 2, k - 1);
      }
    }
  }

  lemma {:induction false} UpperShareBound(d: real, k: nat)
    requires 0 < k <= BUCKET_COUNT
    ensures d <= Limit(k - 1) ==> UpperShare(d, k) >= d
    ensures d > Limit(k - 1) ==> UpperShare(d, k) == Limit(k - 1)
  {
    hide Limit;
    if k == 1 {
      assert UpperShare(d, 0) == 0.0;
    } else {
      UpperShareBound(d, k - 1);
      LimitsIncrease(k - 2, k - 1);
    }
  }

  lemma TimesSums(n: int, w: real)
    ensures Times(n + 1, w) == Times(n, w) + w
    ensures Times(0, w) == 0.0
  {
  }

  lemma GrownBuckets(durations: seq<real>, d: real, i: nat)
    requires i < BUCKET_COUNT
    ensures Buckets(durations + [d])[i] == Buckets(durations)[i] + (if d <= Limit(i) then 1 else 0)
  {
    hide Limit;
    OneMore(durations, d, Limit(i));
  }

  /** One more observation adds its shares to the estimates. */
  lemma {:induction false} EstimatesGrow(durations: seq<real>, d: real, k: nat)
    requires k <= BUCKET_COUNT
    ensures var more := durations + [d];
      LowerEstimate(Buckets(more), |more|, k) ==
      LowerEstimate(Buckets(durations), |durations|, k) + LowerShare(d, k) &&
      UpperEstimate(Buckets(more), |more|, k) ==
      UpperEstimate(Buckets(durations), |durations|, k) + UpperShare(d, k)
  {
    hide Limit;
    hide Times;
    hide Width;
    hide Buckets;
    if k == 0 {
    } else {
      EstimatesGrow(durations, d, k - 1);
      GrownBuckets(durations, d, k - 1);
      if k > 1 {
        GrownBuckets(durations, d, k - 2);
      }
      TimesSums(AboveBucket(Buckets(durations), |durations|, k - 1), Width(k - 1));
      TimesSums(AboveLower(Buckets(durations), |durations|, k - 1), Width(k - 1));
    }
  }

  lemma {:induction false} NoEstimate(k: nat)
    requires k <= BUCKET_COUNT
    ensures LowerEstimate(Buckets([]), 0, k) == 0.0 == UpperEstimate(Buckets([]), 0, k)
  {
    hide Limit;
    hide Times;
    hide Width;
    if k == 0 {
    } else {
      TimesSums(0, Width(k - 1));
      NoEstimate(k - 1);
    }
  }

  ghost predicate NonNegative(durations: seq<real>) {
    forall i :: 0 <= i < |durations| ==> durations[i] >= 0.0
  }

  lemma {:induction false} LowerBound(durations: seq<real>)
    requires NonNegative(durations)
    ensures LowerEstimate(Buckets(durations), |durations|, BUCKET_COUNT) <= Sum(durations)
  {
    hide LowerEstimate;
    if durations == [] {
      NoEstimate(BUCKET_COUNT);
    } else {
      var init, last := durations[..|durations| - 1], durations[|durations| - 1];
      assert durations == init + [last];
      LowerBound(init);
      EstimatesGrow(init, last, BUCKET_COUNT);
      LowerShareBound(last, BUCKET_COUNT);
    }
  }

  lemma {:induction false} UpperBound(durations: seq<real>)
    requires AtMost(durations, Limit(BUCKET_COUNT - 1)) == |durations|
    ensures Sum(durations) <= UpperEstimate(Buckets(durations), |durations|, BUCKET_COUNT)
  {
    hide UpperEstimate;
    if durations == [] {
      NoEstimate(BUCKET_COUNT);
    } else {
      var init, last := durations[..|durations| - 1], durations[|durations| - 1];
      assert durations == init + [last];
      UpperBound(init);
      EstimatesGrow(init, last, BUCKET_COUNT);
      UpperShareBound(last, BUCKET_COUNT);
    }
  }

  /** How many observations lie in bucket i and in no smaller one. */
  function Increment(b: seq<nat>, i: nat): int
    requires i < |b|
  {
    var before: int := if i == 0 then 0 else b[i - 1];
    b[i] as int - before
  }

  /** The first k buckets with every observation at the lower end of its bucket. */
  function AtLowerEnds(b: seq<nat>, k: nat): real
    requires k <= BUCKET_COUNT == |b|
  {
    if k == 0 then 0.0 else AtLowerEnds(b, k - 1) + Times(Increment(b, k - 1), LowerLimit(k - 1))
  }

  /** The first k buckets with every observation at the upper end of its bucket. */
  function AtUpperEnds(b: seq<nat>, k: nat): real
    requires k <= BUCKET_COUNT == |b|
  {
    if k == 0 then 0.0 else AtUpperEnds(b, k - 1) + Times(Increment(b, k - 1), Limit(k - 1))
  }

  /** Observations above a bucket and inside it, counted by its width or by its ends. */
  lemma Regroup(above: int, inside: int, l: real, u: real)
    ensures Times(above + inside, l) + Times(above, u - l) == Times(inside, l) + Times(above, u)
    ensures Times(above + inside, l) + Times(above + inside, u - l) == Times(inside, u) + Times(above, u)
  {
  }

  /** Summation by parts: the estimates count each observation at an end of its bucket, and those above the
      k buckets at the last limit. */
  lemma {:induction false} EstimatesByBucket(b: seq<nat>, count: nat, k: nat)
    requires 0 < k <= BUCKET_COUNT == |b|
    ensures LowerEstimate(b, count, k) == AtLowerEnds(b, k) + Times(count - b[k - 1], Limit(k - 1))
    ensures UpperEstimate(b, count, k) == AtUpperEnds(b, k) + Times(count - b[k - 1], Limit(k - 1))
  {
    hide Limit;
    hide Times;
    var above, inside := count - b[k - 1], Increment(b, k - 1);
    Regroup(above, inside, LowerLimit(k - 1), Limit(k - 1));
    if k == 1 {
      assert LowerEstimate(b, count, 0) == UpperEstimate(b, count, 0) == 0.0;
      assert AtLowerEnds(b, 0) == AtUpperEnds(b, 0) == 0.0;
      TimesNothing(above + inside);
    } else {
      EstimatesByBucket(b, count, k - 1);
      assert above + inside == count - b[k - 2];
    }
  }

  lemma TimesNothing(n: int)
    ensures Times(n, 0.0) == 0.0
  {
  }

  /** The histogram contract, for any sequence of observations: buckets are cumulative and bounded by the count.
      When no duration is negative, the sum is at least what it would be with every observation at the lower end
      of its bucket; when none exceeds the last limit, at most what it would be at the upper ends. */
  lemma HistogramContract(durations: seq<real>)
    ensures var b := Buckets(durations);
      var above := |durations| - b[BUCKET_COUNT - 1];
      (forall i, j :: 0 <= i <= j < BUCKET_COUNT ==> b[i] <= b[j] <= |durations|) &&
      (NonNegative(durations) ==>
        AtLowerEnds(b, BUCKET_COUNT) + Times(above, Limit(BUCKET_COUNT - 1)) <= Sum(durations)) &&
      (above == 0 ==> Sum(durations) <= AtUpperEnds(b, BUCKET_COUNT))
  {
    hide LowerEstimate;
    hide UpperEstimate;
    hide AtLowerEnds;
    hide AtUpperEnds;
    var b := Buckets(durations);
    forall i, j | 0 <= i <= j < BUCKET_COUNT
      ensures b[i] <= b[j] <= |durations|
    {
      if i < j {
        LimitsIncrease(i, j);
        AtMostMonotone(durations, Limit(i), Limit(j));
      }
    }
    EstimatesByBucket(b, |durations|, BUCKET_COUNT);
    if NonNegative(durations) {
      LowerBound(durations);
    }
    if b[BUCKET_COUNT - 1] == |durations| {
      UpperBound(durations);
    }
  }

  // ----------------------------------------------------------------- counters

  /** The counters as one value, with the durations behind each histogram. */
  datatype Tally = Tally(successes: nat, failures: nat, readTotal: nat, writeTotal: nat,
                         latencies: map<string, seq<real>>)

  /** One success (true) or failure (false) increment. */
  function Count(t: Tally, command: string, success: bool): Tally {
    var u := if success then t.(successes := t.successes + 1) else t.(failures := t.failures + 1);
    match ClassifyCommand(command)
    case Read => u.(readTotal := u.readTotal + 1)
    case Write => u.(writeTotal := u.writeTotal + 1)
    case Other => u
  }

  function CountAll(t: Tally, command: string, marks: seq<bool>): Tally
    decreases |marks|
  {
    if marks == [] then t else CountAll(Count(t, command, marks[0]), command, marks[1..])
  }

  function DurationsIn(latencies: map<string, seq<real>>, command: string): seq<real> {
    if command in latencies then latencies[command] else []
  }

  /** An empty command name is not timed. */
  function Observe(t: Tally, command: string, duration: real): Tally {
    if command == "" then t
    else t.(latencies := t.latencies[command := DurationsIn(t.latencies, command) + [duration]])
  }

  class Metrics {
    var totalSuccessCommands: nat
    var totalFailureCommands: nat
    var clients: int
    var readCommandsTotal: nat
    var writeCommandsTotal: nat
    var latencyByCommand: map<string, CommandLatencyStats>
    /** The objects holding the histograms. */
    ghost var parts: set<object>

    ghost predicate Valid()
      reads this`latencyByCommand, this`parts, parts
    {
      && this !in parts
      && (forall c :: c in latencyByCommand ==>
        latencyByCommand[c] in parts && latencyByCommand[c].buckets in parts && latencyByCommand[c].Valid())
      && (forall c, d :: c in latencyByCommand && d in latencyByCommand && c != d ==>
        latencyByCommand[c] != latencyByCommand[d] && latencyByCommand[c].buckets != latencyByCommand[d].buckets)
    }

    ghost function Latencies(): map<string, seq<real>>
      requires Valid()
      reads this`latencyByCommand, this`parts, parts
    {
      map c | c in latencyByCommand :: latencyByCommand[c].durations
    }

    ghost function Totals(): Tally
      requires Valid()
      reads this, parts
    {
      Tally(totalSuccessCommands, totalFailureCommands, readCommandsTotal, writeCommandsTotal, Latencies())
    }

    constructor ()
      ensures Valid() && fresh(parts)
      ensures Totals() == Tally(0, 0, 0, 0, map[]) && clients == 0
    {
      totalSuccessCommands, totalFailureCommands, clients := 0, 0, 0;
      readCommandsTotal, writeCommandsTotal := 0, 0;
      latencyByCommand := map[];
      parts := {};
    }

    method RecordReadWrite(command: string)
      requires Valid()
      modifies this`readCommandsTotal, this`writeCommandsTotal
      ensures readCommandsTotal == old(readCommandsTotal) + (if ClassifyCommand(command) == Read then 1 else 0)
      ensures writeCommandsTotal == old(writeCommandsTotal) + (if ClassifyCommand(command) == Write then 1 else 0)
    {
      var kind := ClassifyCommand(command);
      if kind == Read {
        readCommandsTotal := readCommandsTotal + 1;
      } else if kind == Write {
        writeCommandsTotal := writeCommandsTotal + 1;
      }
    }

    method IncrementSuccessfulCommand(command: string)
      requires Valid()
      modifies this`totalSuccessCommands, this`readCommandsTotal, this`writeCommandsTotal
      ensures Valid() && Totals() == Count(old(Totals()), command, true)
    {
      hide ClassifyCommand;
      hide CommandLatencyStats.Valid;
      RecordReadWrite(command);
      totalSuccessCommands := totalSuccessCommands + 1;
    }

    method IncrementFailureCommand(command: string)
      requires Valid()
      modifies this`totalFailureCommands, this`readCommandsTotal, this`writeCommandsTotal
      ensures Valid() && Totals() == Count(old(Totals()), command, false)
    {
      hide ClassifyCommand;
      hide CommandLatencyStats.Valid;
      RecordReadWrite(command);
      totalFailureCommands := totalFailureCommands + 1;
    }

    method AddClient()
      modifies this`clients
      ensures clients == old(clients) + 1
    {
      clients := clients + 1;
    }

    method RemoveClient()
      modifies this`clients
      ensures clients == old(clients) - 1
    {
      clients := clients - 1;
    }

    /** `latency_by_command_[command]` inserts empty statistics for a command not seen before. */
    method StatsFor(command: string) returns (stats: CommandLatencyStats)
      requires Valid()
      modifies this`latencyByCommand, this`parts
      ensures Valid() && old(parts) <= parts && fresh(parts - old(parts))
      ensures command in latencyByCommand && stats == latencyByCommand[command]
      ensures Latencies() == old(Latencies())[command := DurationsIn(old(Latencies()), command)]
    {
      hide CommandLatencyStats.Valid;
      if command !in latencyByCommand {
        stats := new CommandLatencyStats();
        latencyByCommand := latencyByCommand[command := stats];
        parts := parts + {stats, stats.buckets};
      }
      stats := latencyByCommand[command];
    }

    /** `observeLatency` on the statistics of one command; the other histograms are separate objects. */
    method ObserveFor(command: string, durationSeconds: real)
      requires Valid() && command in latencyByCommand
      modifies latencyByCommand[command], latencyByCommand[command].buckets
      ensures Valid()
      ensures Latencies() == old(Latencies())[command := old(Latencies())[command] + [durationSeconds]]
    {
      hide CommandLatencyStats.Valid;
      ObserveLatency(latencyByCommand[command], durationSeconds);
    }

    method RecordCommandLatency(command: string, durationSeconds: real)
      requires Valid()
      modifies this`latencyByCommand, this`parts, parts
      ensures Valid() && fresh(parts - old(parts))
      ensures Totals() == Observe(old(Totals()), command, durationSeconds)
    {
      hide CommandLatencyStats.Valid;
      hide Latencies;
      if command == "" {
        return;
      }
      var stats := StatsFor(command);
      ObserveFor(command, durationSeconds);
    }
  }
}
