/** A reader for one sample line of the Prometheus text format: a metric name, labels in braces, one space, a value.
    Label values are quoted, with backslash, double quote and line feed escaped. */
module TextFormat {
  import opened Bytes

  datatype Sample = Sample(metric: string, labels: Labels, value: string)

  /** Where a character first stands, or the length. */
  function UpTo(s: string, c: char): (n: nat)
    ensures n <= |s|
  {
    if s == "" || s[0] == c then 0 else 1 + UpTo(s[1..], c)
  }

  /** Something read from the front of a text, and the text after it. */
  datatype Read<T> = Read(what: T, rest: string)

  function WithFront(c: char, q: Option<Read<string>>): Option<Read<string>> {
    if q.Some? then Some(Read([c] + q.value.what, q.value.rest)) else None
  }

  /** A label value up to its closing quote, escapes resolved. */
  function ReadQuoted(s: string): (q: Option<Read<string>>)
    ensures q.Some? ==> |q.value.rest| < |s|
  {
    if s == "" || s[0] == '\n' then None
    else if s[0] == '"' then Some(Read("", s[1..]))
    else if s[0] != '\\' then WithFront(s[0], ReadQuoted(s[1..]))
    else if |s| < 2 then None
    else if s[1] == 'n' then WithFront('\n', ReadQuoted(s[2..]))
    else if s[1] == '\\' || s[1] == '"' then WithFront(s[1], ReadQuoted(s[2..]))
    else None
  }

  type Labels = seq<(string, string)>

  function PutFirst(pair: (string, string), more: Option<Read<Labels>>): Option<Read<Labels>> {
    if more.Some? then Some(Read([pair] + more.value.what, more.value.rest)) else None
  }

  /** `name="value"` pairs between commas up to the closing brace. */
  function ReadLabels(s: string): Option<Read<Labels>>
    decreases |s|
  {
    var e := UpTo(s, '=');
    if |s| < e + 2 || s[e + 1] != '"' then None
    else
      match ReadQuoted(s[e + 2..])
      case None => None
      case Some(Read(value, rest)) =>
        if rest == "" then None
        else if rest[0] == '}' then Some(Read([(s[..e], value)], rest[1..]))
        else if rest[0] == ',' then PutFirst((s[..e], value), ReadLabels(rest[1..]))
        else None
  }

  function Sampled(metric: string, labels: Option<Read<Labels>>): Option<Sample> {
    match labels
    case None => None
    case Some(Read(pairs, rest)) =>
      if rest == "" || rest[0] != ' ' then None else Some(Sample(metric, pairs, rest[1..]))
  }

  function ReadSample(line: string): Option<Sample> {
    var b := UpTo(line, '{');
    if b == |line| then None else Sampled(line[..b], ReadLabels(line[b + 1..]))
  }

  /** Text that needs no escape inside quotes. */
  predicate Clean(s: string) {
    forall i :: 0 <= i < |s| ==> s[i] != '"' && s[i] != '\\' && s[i] != '\n'
  }

  predicate Without(s: string, c: char) {
    forall i :: 0 <= i < |s| ==> s[i] != c
  }

  lemma {:induction false} UpToFound(a: string, c: char, b: string)
    requires Without(a, c)
    ensures UpTo(a + [c] + b, c) == |a|
  {
    if a == "" {
    } else {
      assert (a + [c] + b)[1..] == a[1..] + [c] + b;
      UpToFound(a[1..], c, b);
    }
  }

  /** Clean text is read as written. */
  lemma {:induction false} ReadsClean(value: string, rest: string)
    requires Clean(value)
    ensures ReadQuoted(value + "\"" + rest) == Some(Read(value, rest))
  {
    var s := value + "\"" + rest;
    if value == "" {
      assert s[1..] == rest;
    } else {
      assert s[0] == value[0] && s[1..] == value[1..] + "\"" + rest;
      ReadsClean(value[1..], rest);
      assert [value[0]] + value[1..] == value;
    }
  }

  /** Where the closing quote stands; the value is no longer than the text before it, and as long only when that text
      is clean and is the value. */
  lemma {:induction false} QuotedSpan(s: string) returns (n: nat)
    requires ReadQuoted(s).Some?
    ensures var value := ReadQuoted(s).value.what;
      && |value| <= n < |s| && s[n] == '"' && s[n + 1..] == ReadQuoted(s).value.rest
      && (n == |value| ==> s[..n] == value && Clean(value))
  {
    if s[0] == '"' {
      n := 0;
    } else {
      var step := if s[0] == '\\' then 2 else 1;
      var m := QuotedSpan(s[step..]);
      n := m + step;
      assert s[step..][m + 1..] == s[n + 1..];
      if step == 1 {
        assert s[..n] == [s[0]] + s[1..][..m];
      }
    }
  }

  /** The first label of a text that starts with its name. */
  lemma LabelRead(key: string, s: string)
    requires Without(key, '=')
    ensures ReadQuoted(s).None? ==> ReadLabels(key + "=\"" + s) == None
    ensures ReadQuoted(s).Some? ==>
      var value, rest := ReadQuoted(s).value.what, ReadQuoted(s).value.rest;
      ReadLabels(key + "=\"" + s) ==
      if rest == "" then None
      else if rest[0] == '}' then Some(Read([(key, value)], rest[1..]))
      else if rest[0] == ',' then PutFirst((key, value), ReadLabels(rest[1..]))
      else None
  {
    hide ReadQuoted;
    var text := key + "=\"" + s;
    assert text == key + ['='] + ("\"" + s);
    UpToFound(key, '=', "\"" + s);
    assert text[|key| + 2..] == s && text[..|key|] == key;
  }

  lemma SampleRead(metric: string, inside: string)
    requires Without(metric, '{')
    ensures ReadSample(metric + "{" + inside) == Sampled(metric, ReadLabels(inside))
  {
    hide ReadLabels;
    var line := metric + "{" + inside;
    assert line == metric + ['{'] + inside;
    UpToFound(metric, '{', inside);
    assert line[|metric| + 1..] == inside && line[..|metric|] == metric;
  }

  // ------------------------------------------------------------ one label, or two

  /** A line with one label, its value printed without escapes. */
  function OneLabel(metric: string, key: string, value: string, number: string): string {
    metric + "{" + (key + "=\"" + (value + "\"" + ("} " + number)))
  }

  /** A line with two labels, their values printed without escapes. */
  function TwoLabels(metric: string, key: string, value: string, key': string, value': string, number: string): string {
    metric + "{" + (key + "=\"" + (value + "\"" + ("," + (key' + "=\"" + (value' + "\"" + ("} " + number))))))
  }

  /** The first label read has the value read; without a comma after it, it is the only one. */
  lemma FirstReadLabel(key: string, s: string)
    requires Without(key, '=') && ReadQuoted(s).Some?
    ensures var labels := ReadLabels(key + "=\"" + s);
      labels.Some? ==>
        && labels.value.what != [] && labels.value.what[0].1 == ReadQuoted(s).value.what
        && (!("," <= ReadQuoted(s).value.rest) ==> |labels.value.what| == 1)
  {
    hide ReadLabels;
    LabelRead(key, s);
  }

  /** It reads back exactly when the label value is clean. */
  lemma OneLabelReadsBackIff(metric: string, key: string, value: string, number: string)
    requires Without(metric, '{') && Without(key, '=') && Without(number, '"')
    ensures var sample := Sample(metric, [(key, value)], number);
      ReadSample(OneLabel(metric, key, value, number)) == Some(sample) <==> Clean(value)
  {
    hide ReadQuoted;
    hide ReadLabels;
    var back := "} " + number;
    var s := value + "\"" + back;
    SampleRead(metric, key + "=\"" + s);
    LabelRead(key, s);
    assert back[1..][1..] == number;
    if Clean(value) {
      ReadsClean(value, back);
    } else if ReadQuoted(s).Some? {
      var n := QuotedSpan(s);
      assert forall i :: |value| < i < |s| ==> s[i] == back[i - |value| - 1] != '"';
      assert s[..|value|] == value;
      assert ReadQuoted(s).value.what != value;
      FirstReadLabel(key, s);
      assert [(key, value)][0].1 == value;
    }
  }

  lemma {:induction false} TwoLabelsReadBackIff(metric: string, key: string, value: string,
                                                key': string, value': string, number: string)
    requires Without(metric, '{') && Without(key, '=') && Without(key', '=') && Without(number, '"')
    requires Without(key', '"') && Clean(value') && value' != "" && value'[0] != ','
    ensures var sample := Sample(metric, [(key, value), (key', value')], number);
      ReadSample(TwoLabels(metric, key, value, key', value', number)) == Some(sample) <==> Clean(value)
  {
    hide ReadQuoted;
    hide ReadLabels;
    var last := "} " + number;
    var inner := key' + "=\"" + (value' + "\"" + last);
    var back := "," + inner;
    var s := value + "\"" + back;
    SampleRead(metric, key + "=\"" + s);
    LabelRead(key, s);
    assert back[1..] == inner;
    if Clean(value) {
      ReadsClean(value, back);
      LabelRead(key', value' + "\"" + last);
      ReadsClean(value', last);
      assert last[1..][1..] == number;
      assert [(key, value)] + [(key', value')] == [(key, value), (key', value')];
    } else if ReadQuoted(s).Some? {
      var n := QuotedSpan(s);
      assert s[..|value|] == value;
      if n > |value| {
        assert s[n] == back[n - |value| - 1] && s[n + 1..] == back[n - |value|..];
        LaterQuotes(key', value', number, n - |value| - 1);
        assert ReadQuoted(s).value.rest == "" || ReadQuoted(s).value.rest[0] != ',';
      } else {
        assert ReadQuoted(s).value.what != value;
      }
      FirstReadLabel(key, s);
      assert [(key, value), (key', value')][0].1 == value;
    }
  }

  /** After a quote of the second label no comma follows. */
  lemma LaterQuotes(key: string, value: string, number: string, m: nat)
    requires Without(key, '"') && Without(number, '"') && Clean(value) && value != "" && value[0] != ','
    ensures var back := "," + (key + "=\"" + (value + "\"" + ("} " + number)));
      m + 1 < |back| && back[m] == '"' ==> back[m + 1] != ','
  {
  }
}
