/** The histogram text of one command, and what a scraper reads back from it. */
module Exposition {
  import opened Bytes
  import opened Decimal
  import opened MetricsModel
  import opened TextFormat
  import P = Persistence

  /** The bucket limits as text. */
  function Label(i: nat): string
    requires i < BUCKET_COUNT
  {
    ["0.0000005", "0.000001", "0.0000025", "0.000005", "0.00001", "0.000025", "0.00005", "0.0001",
     "0.00025", "0.0005", "0.001", "0.005", "0.025", "0.1"][i]
  }

  function Named(series: string, command: string): string {
    "fluxendb_command_duration_seconds_" + series + "{command=\"" + command + "\""
  }

  function BucketLine(command: string, le: string, n: nat): string {
    Named("bucket", command) + ",le=\"" + le + "\"}" + " " + ToDecimal(n)
  }

  function PlainLine(series: string, command: string, number: string): string {
    Named(series, command) + "}" + " " + number
  }

  function BucketLines(command: string, b: seq<nat>, k: nat): (lines: seq<string>)
    requires k <= BUCKET_COUNT == |b|
    ensures |lines| == k
  {
    if k == 0 then [] else BucketLines(command, b, k - 1) + [BucketLine(command, Label(k - 1), b[k - 1])]
  }

  const GIGA: int := 1_000_000_000

  /** The nearest integer, the even one of two. */
  function Nearest(y: real): (n: int)
    requires y >= 0.0
    ensures n >= 0 && -0.5 <= n as real - y <= 0.5
  {
    var n := y.Floor;
    if y - n as real < 0.5 || (y - n as real == 0.5 && n % 2 == 0) then n else n + 1
  }

  /** The last `width` digits of a number, zeros in front. */
  function Padded(n: nat, width: nat): string {
    if width == 0 then "" else Padded(n / 10, width - 1) + [DigitChar(n % 10)]
  }

  /** What `std::fixed << std::setprecision(9)` prints. */
  function Fixed(x: real): string {
    var n := Nearest(if x < 0.0 then -x * GIGA as real else x * GIGA as real);
    (if x < 0.0 then "-" else "") + ToDecimal(n / GIGA) + "." + Padded(n % GIGA, 9)
  }

  /** The seventeen lines of a histogram. */
  function HistogramLines(command: string, b: seq<nat>, count: nat, sum: real): (lines: seq<string>)
    requires |b| == BUCKET_COUNT
    ensures |lines| == BUCKET_COUNT + 3
  {
    BucketLines(command, b, BUCKET_COUNT)
    + [BucketLine(command, "+Inf", count), PlainLine("sum", command, Fixed(sum)),
       PlainLine("count", command, ToDecimal(count))]
  }

  /** Appends the lines of one command's statistics. */
  method AppendHistogram(out: string, command: string, stats: CommandLatencyStats) returns (text: string)
    requires stats.Valid()
    ensures var d := stats.durations;
      text == out + P.Terminated(HistogramLines(command, Buckets(d), |d|, Sum(d)))
  {
    hide Limit;
    hide ToDecimal;
    hide Fixed;
    hide BucketLine;
    hide PlainLine;
    ghost var b := Buckets(stats.durations);
    text := out;
    for i := 0 to BUCKET_COUNT
      invariant text == out + P.Terminated(BucketLines(command, b, i))
    {
      AddLine(out, BucketLines(command, b, i), BucketLine(command, Label(i), b[i]));
      text := text + (BucketLine(command, Label(i), stats.buckets[i]) + "\n");
    }
    ghost var lines := BucketLines(command, b, BUCKET_COUNT);
    ghost var inf := BucketLine(command, "+Inf", stats.count);
    ghost var total := PlainLine("sum", command, Fixed(stats.sumSeconds));
    ghost var last := PlainLine("count", command, ToDecimal(stats.count));
    AddLine(out, lines, inf);
    AddLine(out, lines + [inf], total);
    AddLine(out, lines + [inf] + [total], last);
    text := text + (BucketLine(command, "+Inf", stats.count) + "\n");
    text := text + (PlainLine("sum", command, Fixed(stats.sumSeconds)) + "\n");
    text := text + (PlainLine("count", command, ToDecimal(stats.count)) + "\n");
    assert lines + [inf] + [total] + [last] == HistogramLines(command, b, stats.count, stats.sumSeconds);
  }

  lemma AddLine(out: string, lines: seq<string>, line: string)
    ensures out + P.Terminated(lines) + (line + "\n") == out + P.Terminated(lines + [line])
  {
    assert (lines + [line])[..|lines|] == lines;
    assert P.Terminated(lines + [line]) == P.Terminated(lines) + line + "\n";
  }

  lemma {:induction false} BucketLinesAt(command: string, b: seq<nat>, k: nat, i: nat)
    requires i < k <= BUCKET_COUNT == |b|
    ensures BucketLines(command, b, k)[i] == BucketLine(command, Label(i), b[i])
  {
    hide BucketLine;
    if i == k - 1 {
    } else {
      BucketLinesAt(command, b, k - 1, i);
    }
  }

  // -------------------------------------------------------- reading one line back

  function Metric(series: string): string {
    "fluxendb_command_duration_seconds_" + series
  }

  function BucketSample(command: string, le: string, n: nat): Sample {
    Sample(Metric("bucket"), [("command", command), ("le", le)], ToDecimal(n))
  }

  function PlainSample(series: string, command: string, number: string): Sample {
    Sample(Metric(series), [("command", command)], number)
  }

  lemma MetricName(series: string)
    requires Without(series, '{')
    ensures Without(Metric(series), '{')
  {
  }

  /** A bucket line reads back as its command, limit and count exactly when the command name needs no escape. */
  lemma BucketReadsBackIff(command: string, le: string, n: nat)
    requires Clean(le) && le != "" && le[0] != ','
    ensures ReadSample(BucketLine(command, le, n)) == Some(BucketSample(command, le, n)) <==> Clean(command)
  {
    hide ReadSample;
    hide Clean;
    hide Metric;
    DecimalDigits(n);
    MetricName("bucket");
    TwoLabelsReadBackIff(Metric("bucket"), "command", command, "le", le, ToDecimal(n));
    BucketLineText(command, le, ToDecimal(n));
  }

  lemma BucketLineText(command: string, le: string, number: string)
    ensures Named("bucket", command) + ",le=\"" + le + "\"}" + " " + number
         == TwoLabels(Metric("bucket"), "command", command, "le", le, number)
  {
    var text := Named("bucket", command) + ",le=\"" + le + "\"}" + " " + number;
    assert text == Metric("bucket") + "{" + ("command" + "=\"" + (command + "\""
      + ("," + ("le" + "=\"" + (le + "\"" + ("} " + number))))));
  }

  /** So does a line with a number alone. */
  lemma PlainReadsBackIff(series: string, command: string, number: string)
    requires Without(series, '{') && Without(number, '"')
    ensures ReadSample(PlainLine(series, command, number)) == Some(PlainSample(series, command, number))
            <==> Clean(command)
  {
    hide ReadSample;
    hide Clean;
    hide Metric;
    MetricName(series);
    OneLabelReadsBackIff(Metric(series), "command", command, number);
    PlainLineText(series, command, number);
  }

  lemma PlainLineText(series: string, command: string, number: string)
    ensures PlainLine(series, command, number) == OneLabel(Metric(series), "command", command, number)
  {
    var text := PlainLine(series, command, number);
    assert text == Metric(series) + "{" + ("command" + "=\"" + (command + "\"" + ("} " + number)));
  }

  /** The failing quote: a command name with a double quote inside makes a line that cannot be read at all. */
  lemma QuoteIsUnreadable(le: string, n: nat)
    ensures ReadSample(BucketLine("A\"B", le, n)) == None
  {
    hide ReadSample;
    hide ReadQuoted;
    hide ReadLabels;
    hide Metric;
    hide ToDecimal;
    var number := ToDecimal(n);
    var back := "B\"" + ("," + ("le" + "=\"" + (le + "\"" + ("} " + number))));
    BucketLineText("A\"B", le, number);
    assert "A\"B" == "A" + "\"" + "B";
    assert TwoLabels(Metric("bucket"), "command", "A\"B", "le", le, number)
        == Metric("bucket") + "{" + ("command" + "=\"" + ("A" + "\"" + back));
    MetricName("bucket");
    SampleRead(Metric("bucket"), "command" + "=\"" + ("A" + "\"" + back));
    LabelRead("command", "A" + "\"" + back);
    ReadsClean("A", back);
  }

  // ------------------------------------------------------------- line by line

  /** How many line feeds a text has. */
  function Feeds(s: string): nat {
    if s == "" then 0 else Feeds(s[..|s| - 1]) + (if s[|s| - 1] == '\n' then 1 else 0)
  }

  lemma {:induction false} FeedsAdd(a: string, b: string)
    ensures Feeds(a + b) == Feeds(a) + Feeds(b)
  {
    if b == "" {
      assert a + b == a;
    } else {
      assert (a + b)[..|a + b| - 1] == a + b[..|b| - 1];
      FeedsAdd(a, b[..|b| - 1]);
    }
  }

  lemma {:induction false} NoFeeds(s: string)
    ensures Feeds(s) == 0 <==> P.OneLine(s)
  {
    if s == "" {
    } else {
      NoFeeds(s[..|s| - 1]);
    }
  }

  /** A text that ends its last line has as many lines as line feeds. */
  lemma {:induction false} LinesCounted(s: string)
    requires s != "" ==> s[|s| - 1] == '\n'
    ensures |P.Lines(s)| == Feeds(s)
    decreases |s|
  {
    if s == "" {
    } else {
      var n := P.LineLength(s);
      LineStops(s);
      var line, rest := s[..n], s[n + 1..];
      assert s == line + "\n" + rest;
      LinesCounted(rest);
      FeedsAdd(line + "\n", rest);
      FeedsAdd(line, "\n");
      NoFeeds(line);
      OneFeed();
    }
  }

  lemma OneFeed()
    ensures Feeds("\n") == 1
  {
    assert "\n"[..0] == "";
  }

  lemma {:induction false} LineStops(s: string)
    ensures P.OneLine(s[..P.LineLength(s)])
    ensures P.LineLength(s) < |s| ==> s[P.LineLength(s)] == '\n'
    ensures s != "" && s[|s| - 1] == '\n' ==> P.LineLength(s) < |s|
  {
    if s == "" || s[0] == '\n' {
    } else {
      LineStops(s[1..]);
      assert s[..P.LineLength(s)] == [s[0]] + s[1..][..P.LineLength(s[1..])];
    }
  }

  lemma OneMoreTime(n: nat, m: nat)
    ensures (n + 1) * m == n * m + m
  {
  }

  lemma {:induction false} TerminatedFeeds(lines: seq<string>, feeds: nat)
    requires forall i :: 0 <= i < |lines| ==> Feeds(lines[i]) == feeds
    ensures Feeds(P.Terminated(lines)) == |lines| * (feeds + 1)
    ensures P.Terminated(lines) != "" ==> P.Terminated(lines)[|P.Terminated(lines)| - 1] == '\n'
  {
    if lines == [] {
    } else {
      var n := |lines| - 1;
      var init := P.Terminated(lines[..n]);
      TerminatedFeeds(lines[..n], feeds);
      assert P.Terminated(lines) == init + lines[n] + "\n";
      hide Feeds;
      hide P.Terminated;
      FeedsAdd(init + lines[n], "\n");
      FeedsAdd(init, lines[n]);
      OneFeed();
      OneMoreTime(n, feeds + 1);
    }
  }

  lemma LineFeeds(front: string, command: string, back: string)
    requires P.OneLine(front) && P.OneLine(back)
    ensures Feeds(front + command + back) == Feeds(command)
  {
    FeedsAdd(front + command, back);
    FeedsAdd(front, command);
    NoFeeds(front);
    NoFeeds(back);
  }

  lemma SeriesFeeds(series: string, command: string, back: string)
    requires P.OneLine(series) && P.OneLine(back)
    ensures Feeds(Named(series, command) + back) == Feeds(command)
  {
    var front := "fluxendb_command_duration_seconds_" + series + "{command=\"";
    assert Named(series, command) + back == front + command + ("\"" + back);
    LineFeeds(front, command, "\"" + back);
  }

  lemma BucketLineFeeds(command: string, le: string, n: nat)
    requires P.OneLine(le)
    ensures Feeds(BucketLine(command, le, n)) == Feeds(command)
  {
    DecimalDigits(n);
    var back := ",le=\"" + le + "\"}" + " " + ToDecimal(n);
    assert BucketLine(command, le, n) == Named("bucket", command) + back;
    SeriesFeeds("bucket", command, back);
  }

  lemma PlainLineFeeds(series: string, command: string, number: string)
    requires P.OneLine(series) && P.OneLine(number)
    ensures Feeds(PlainLine(series, command, number)) == Feeds(command)
  {
    var back := "}" + " " + number;
    assert PlainLine(series, command, number) == Named(series, command) + back;
    SeriesFeeds(series, command, back);
  }

  lemma {:induction false} PaddedDigits(n: nat, width: nat)
    ensures |Padded(n, width)| == width && AllDigits(Padded(n, width))
  {
    if width == 0 {
    } else {
      PaddedDigits(n / 10, width - 1);
    }
  }

  lemma FixedIsPlain(x: real)
    ensures P.OneLine(Fixed(x)) && Without(Fixed(x), '"')
  {
    hide ToDecimal;
    var n := Nearest(if x < 0.0 then -x * GIGA as real else x * GIGA as real);
    DecimalDigits(n / GIGA);
    PaddedDigits(n % GIGA, 9);
    var sign := if x < 0.0 then "-" else "";
    PlainParts(sign, ToDecimal(n / GIGA), Padded(n % GIGA, 9));
  }

  lemma PlainParts(sign: string, whole: string, part: string)
    requires (sign == "" || sign == "-") && AllDigits(whole) && AllDigits(part)
    ensures P.OneLine(sign + whole + "." + part) && Without(sign + whole + "." + part, '"')
  {
    var s := sign + whole + "." + part;
    forall i | 0 <= i < |s|
      ensures s[i] == '-' || s[i] == '.' || IsDigit(s[i])
    {
      var j, k := i - |sign|, i - |sign| - |whole| - 1;
      assert 0 <= j < |whole| ==> s[i] == whole[j];
      assert 0 <= k ==> s[i] == part[k];
    }
  }

  lemma HistogramFeeds(command: string, b: seq<nat>, count: nat, sum: real, i: nat)
    requires |b| == BUCKET_COUNT && i < BUCKET_COUNT + 3
    ensures Feeds(HistogramLines(command, b, count, sum)[i]) == Feeds(command)
  {
    hide Feeds;
    hide BucketLine;
    hide PlainLine;
    if i < BUCKET_COUNT {
      BucketLinesAt(command, b, BUCKET_COUNT, i);
      BucketLineFeeds(command, Label(i), b[i]);
    } else {
      DecimalDigits(count);
      BucketLineFeeds(command, "+Inf", count);
      FixedIsPlain(sum);
      PlainLineFeeds("sum", command, Fixed(sum));
      PlainLineFeeds("count", command, ToDecimal(count));
    }
  }

  /** The text of one histogram: every line feed in the command name, which is printed as received, adds
      seventeen lines. */
  lemma ScrapedLines(command: string, b: seq<nat>, count: nat, sum: real)
    requires |b| == BUCKET_COUNT
    ensures var lines := HistogramLines(command, b, count, sum);
      |P.Lines(P.Terminated(lines))| == 17 * (Feeds(command) + 1) &&
      (P.Lines(P.Terminated(lines)) == lines <==> P.OneLine(command))
  {
    hide HistogramLines;
    var lines := HistogramLines(command, b, count, sum);
    forall i | 0 <= i < |lines|
      ensures Feeds(lines[i]) == Feeds(command)
    {
      HistogramFeeds(command, b, count, sum, i);
      NoFeeds(lines[i]);
    }
    TerminatedFeeds(lines, Feeds(command));
    LinesCounted(P.Terminated(lines));
    NoFeeds(command);
    if P.OneLine(command) {
      forall i | 0 <= i < |lines|
        ensures P.OneLine(lines[i])
      {
        NoFeeds(lines[i]);
      }
      P.LinesOfTerminated(lines, "");
      assert P.Terminated(lines) + "" == P.Terminated(lines);
    }
  }

  /** The samples of a histogram: what its seventeen lines should say. */
  ghost predicate SaysHistogram(lines: seq<string>, command: string, b: seq<nat>, count: nat, sum: real)
    requires |b| == BUCKET_COUNT
  {
    && |lines| == BUCKET_COUNT + 3
    && (forall i :: 0 <= i < BUCKET_COUNT ==> ReadSample(lines[i]) == Some(BucketSample(command, Label(i), b[i])))
    && ReadSample(lines[BUCKET_COUNT]) == Some(BucketSample(command, "+Inf", count))
    && ReadSample(lines[BUCKET_COUNT + 1]) == Some(PlainSample("sum", command, Fixed(sum)))
    && ReadSample(lines[BUCKET_COUNT + 2]) == Some(PlainSample("count", command, ToDecimal(count)))
  }

  lemma LabelIsClean(i: nat)
    requires i < BUCKET_COUNT
    ensures Clean(Label(i)) && Label(i) != "" && Label(i)[0] != ','
  {
  }

  lemma LinesSayHistogram(command: string, b: seq<nat>, count: nat, sum: real)
    requires |b| == BUCKET_COUNT
    ensures SaysHistogram(HistogramLines(command, b, count, sum), command, b, count, sum) <==> Clean(command)
  {
    hide ReadSample;
    hide BucketLine;
    hide PlainLine;
    hide ToDecimal;
    hide Fixed;
    hide Metric;
    hide Label;
    hide Clean;
    var lines := HistogramLines(command, b, count, sum);
    forall i | 0 <= i < BUCKET_COUNT
      ensures ReadSample(lines[i]) == Some(BucketSample(command, Label(i), b[i])) <==> Clean(command)
    {
      LabelIsClean(i);
      BucketLinesAt(command, b, BUCKET_COUNT, i);
      BucketReadsBackIff(command, Label(i), b[i]);
    }
    InfIsClean();
    BucketReadsBackIff(command, "+Inf", count);
    FixedIsPlain(sum);
    PlainReadsBackIff("sum", command, Fixed(sum));
    DecimalHasNoQuote(count);
    PlainReadsBackIff("count", command, ToDecimal(count));
  }

  lemma InfIsClean()
    ensures Clean("+Inf")
  {
  }

  lemma DecimalHasNoQuote(n: nat)
    ensures Without(ToDecimal(n), '"')
  {
    DecimalDigits(n);
  }

  /** The exported text of any observations, split into lines and read in the text format, says the histogram, every
      line with its command, its limit and its number, exactly when the command name holds no double quote, no
      backslash and no line feed. */
  lemma ScrapeReadsBackIff(command: string, durations: seq<real>)
    ensures var b, count, sum := Buckets(durations), |durations|, Sum(durations);
      SaysHistogram(P.Lines(P.Terminated(HistogramLines(command, b, count, sum))), command, b, count, sum)
      <==> Clean(command)
  {
    hide SaysHistogram;
    hide HistogramLines;
    var b, count, sum := Buckets(durations), |durations|, Sum(durations);
    ScrapedLines(command, b, count, sum);
    LinesSayHistogram(command, b, count, sum);
    if !P.OneLine(command) {
      NoFeeds(command);
      LinesNotClean(command);
      TooManyLines(P.Lines(P.Terminated(HistogramLines(command, b, count, sum))), command, b, count, sum);
    }
  }

  lemma LinesNotClean(command: string)
    requires !P.OneLine(command)
    ensures !Clean(command)
  {
  }

  lemma TooManyLines(lines: seq<string>, command: string, b: seq<nat>, count: nat, sum: real)
    requires |b| == BUCKET_COUNT && |lines| > BUCKET_COUNT + 3
    ensures !SaysHistogram(lines, command, b, count, sum)
  {
  }

  /** The count on a bucket or count line. */
  function Counter(line: string): int {
    match ReadSample(line)
    case None => -1
    case Some(sample) => DigitsValue(sample.value)
  }

  /** Of a name that needs no escape, the counters read back are the histogram: bucket i is the number of durations
      at most limit i, buckets are cumulative, and the +Inf line bounds them and agrees with the count line. */
  lemma ScrapeIsCumulative(command: string, durations: seq<real>)
    requires Clean(command)
    ensures var b, count, sum := Buckets(durations), |durations|, Sum(durations);
      var lines := P.Lines(P.Terminated(HistogramLines(command, b, count, sum)));
      && |lines| == 17
      && (forall i :: 0 <= i < BUCKET_COUNT ==> Counter(lines[i]) == AtMost(durations, Limit(i)))
      && (forall i, j :: 0 <= i <= j < BUCKET_COUNT ==> Counter(lines[i]) <= Counter(lines[j]) <= Counter(lines[14]))
      && Counter(lines[14]) == Counter(lines[16]) == |durations|
  {
    hide HistogramLines;
    hide AtMost;
    hide ReadSample;
    hide ToDecimal;
    hide Metric;
    hide Label;
    var b := Buckets(durations);
    ScrapeReadsBackIff(command, durations);
    forall n: nat
      ensures DigitsValue(ToDecimal(n)) == n
    {
      DecimalValue(n);
    }
    HistogramContract(durations);
  }

  // ------------------------------------------------------------------- the sum

  /** The number a printed sum denotes. */
  function FixedValue(s: string): real {
    if s != "" && s[0] == '-' then -UnsignedValue(s[1..]) else UnsignedValue(s)
  }

  function UnsignedValue(s: string): real {
    var point := UpTo(s, '.');
    if point == |s| then DigitsValue(s) as real
    else DigitsValue(s[..point]) as real + DigitsValue(s[point + 1..]) as real / Tens(|s| - point - 1)
  }

  function TenTo(k: nat): nat {
    if k == 0 then 1 else 10 * TenTo(k - 1)
  }

  lemma {:induction false} PaddedValue(n: nat, width: nat)
    requires n < TenTo(width)
    ensures DigitsValue(Padded(n, width)) == n
  {
    var s := Padded(n, width);
    if width == 0 {
    } else {
      PaddedValue(n / 10, width - 1);
      assert s[..|s| - 1] == Padded(n / 10, width - 1);
    }
  }

  lemma NineDigits()
    ensures TenTo(9) == GIGA && Tens(9) == GIGA as real
  {
    assert TenTo(3) == 1000 && Tens(3) == 1000.0;
    assert TenTo(6) == 1_000_000 && Tens(6) == 1000000.0;
  }

  lemma UnsignedOfFixed(n: nat)
    ensures UnsignedValue(ToDecimal(n / GIGA) + "." + Padded(n % GIGA, 9)) * GIGA as real == n as real
  {
    hide Tens;
    hide TenTo;
    hide Padded;
    hide DigitsValue;
    hide ToDecimal;
    NineDigits();
    var whole, part := ToDecimal(n / GIGA), Padded(n % GIGA, 9);
    var s := whole + "." + part;
    DecimalDigits(n / GIGA);
    DecimalValue(n / GIGA);
    PaddedDigits(n % GIGA, 9);
    PaddedValue(n % GIGA, 9);
    assert s == whole + ['.'] + part;
    UpToFound(whole, '.', part);
    assert s[..|whole|] == whole && s[|whole| + 1..] == part;
    DividesBack((n % GIGA) as real, GIGA as real);
  }

  /** The printed sum is within half a nanosecond of the sum. */
  lemma SumWithinHalfNano(x: real)
    ensures -0.5 <= (FixedValue(Fixed(x)) - x) * GIGA as real <= 0.5
  {
    hide UnsignedValue;
    hide ToDecimal;
    hide Padded;
    var n := Nearest(if x < 0.0 then -x * GIGA as real else x * GIGA as real);
    UnsignedOfFixed(n);
    var digits := ToDecimal(n / GIGA) + "." + Padded(n % GIGA, 9);
    DecimalDigits(n / GIGA);
    assert digits[0] == ToDecimal(n / GIGA)[0];
    if x < 0.0 {
      assert Fixed(x) == "-" + digits;
      assert ("-" + digits)[1..] == digits;
    } else {
      assert Fixed(x) == digits;
    }
  }

  // ------------------------------------------------------------------- labels

  function Tens(k: nat): (r: real)
    ensures r > 0.0
  {
    if k == 0 then 1.0 else 10.0 * Tens(k - 1)
  }

  /** The number a decimal fraction below one denotes. */
  function Fraction(s: string): real
    requires "0." <= s
  {
    DigitsValue(s[2..]) as real / Tens(|s| - 2)
  }

  function Zeros(k: nat): string {
    if k == 0 then "" else "0" + Zeros(k - 1)
  }

  /** Leading zeros do not change the digits' value. */
  lemma {:induction false} ZerosBefore(k: nat, digits: string)
    ensures |Zeros(k)| == k && DigitsValue(Zeros(k) + digits) == DigitsValue(digits)
  {
    if digits == "" {
      assert Zeros(k) + "" == Zeros(k);
      OnlyZeros(k);
    } else {
      var s, n := Zeros(k) + digits, |digits| - 1;
      assert s[..|s| - 1] == Zeros(k) + digits[..n];
      ZerosBefore(k, digits[..n]);
    }
  }

  lemma {:induction false} OnlyZeros(k: nat)
    ensures |Zeros(k)| == k && DigitsValue(Zeros(k)) == 0
    ensures forall i :: 0 <= i < k ==> Zeros(k)[i] == '0'
  {
    if k == 0 {
    } else {
      OnlyZeros(k - 1);
      assert Zeros(k)[..k - 1] == Zeros(k - 1);
    }
  }

  lemma DividesBack(a: real, b: real)
    requires b > 0.0
    ensures a / b * b == a
  {
  }

  lemma {:induction false} FractionOf(s: string, k: nat, digits: string, n: nat)
    requires s == "0." + Zeros(k) + digits && DigitsValue(digits) == n
    ensures "0." <= s && Fraction(s) * Tens(k + |digits|) == n as real
  {
    hide DigitsValue;
    ZerosBefore(k, digits);
    assert s[2..] == Zeros(k) + digits;
    DividesBack(n as real, Tens(k + |digits|));
  }

  lemma Digits()
    ensures DigitsValue("1") == 1 && DigitsValue("5") == 5 && DigitsValue("25") == 25
  {
    assert "1"[..0] == "" && "5"[..0] == "" && "2"[..0] == "";
    assert "25"[..1] == "2";
  }

  lemma {:induction false} SmallTens()
    ensures Tens(1) == 10.0 && Tens(3) == 1000.0 && Tens(4) == 10000.0 && Tens(5) == 100000.0
    ensures Tens(6) == 1000000.0 && Tens(7) == 10000000.0
  {
    assert Tens(2) == 100.0;
  }

  /** The label of every bucket denotes its limit. */
  lemma {:induction false} LabelsAreLimits(i: nat)
    requires i < BUCKET_COUNT
    ensures "0." <= Label(i) && Fraction(Label(i)) == Limit(i)
  {
    hide DigitsValue;
    hide Fraction;
    hide Tens;
    var zeros := [6, 5, 5, 5, 4, 4, 4, 3, 3, 3, 2, 2, 1, 0][i];
    var digits := ["5", "1", "25", "5", "1", "25", "5", "1", "25", "5", "1", "5", "25", "1"][i];
    Digits();
    SmallTens();
    assert Label(i) == "0." + Zeros(zeros) + digits;
    FractionOf(Label(i), zeros, digits, DigitsValue(digits));
  }
}
