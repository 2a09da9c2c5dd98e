/** Byte strings and the parts of the C++ string library the server leans on.
    One `char` stands for one byte. */
module Bytes {

  datatype Option<+T> = None | Some(value: T)

  const CRLF: string := "\r\n"

  // ---------------------------------------------------------------- size_t

  const SIZE_MODULUS: int := 0x1_0000_0000_0000_0000
  const NPOS: int := SIZE_MODULUS - 1
  /** The longest string an implementation can hold. */
  const MAX_SIZE: int := 0x7fff_ffff_ffff_ffff
  const INT_MAX: int := 0x7fff_ffff
  const INT_MIN: int := -0x8000_0000
  const LLONG_MAX: int := 0x7fff_ffff_ffff_ffff
  const LLONG_MIN: int := -0x8000_0000_0000_0000

  /** An integer converted to size_t. */
  function Wrap(x: int): (r: nat)
    ensures r < SIZE_MODULUS
    ensures 0 <= x < SIZE_MODULUS ==> r == x
    ensures -SIZE_MODULUS <= x < 0 ==> r == x + SIZE_MODULUS
  {
    if 0 <= x < SIZE_MODULUS then x else x % SIZE_MODULUS
  }

  /** `s.substr(pos, count)`; None is the std::out_of_range exception. */
  function Substr(s: string, pos: nat, count: nat): Option<string> {
    if |s| < pos then None
    else if |s| - pos <= count then Some(s[pos..])
    else Some(s[pos..pos + count])
  }

  /** One `recv` into a 4096-byte buffer takes at most this many bytes, on the server and on the client. */
  const RECEIVE_LIMIT: nat := 4095

  /** What the first `recv` takes of bytes that have all arrived. */
  function Received(bytes: string): string {
    if |bytes| <= RECEIVE_LIMIT then bytes else bytes[..RECEIVE_LIMIT]
  }

  // ------------------------------------------------------------------ CRLF

  predicate CrlfAt(s: string, i: int) {
    0 <= i && i + 2 <= |s| && s[i] == '\r' && s[i + 1] == '\n'
  }

  /** `s.find("\r\n", from)`. */
  function FindCrlf(s: string, from: nat): (r: Option<nat>)
    ensures r.Some? ==> from <= r.value && r.value + 2 <= |s|
    decreases |s| - from
  {
    if |s| < from + 2 then None
    else if CrlfAt(s, from) then Some(from)
    else FindCrlf(s, from + 1)
  }

  /** The size_t that `find` returns. */
  function Position(r: Option<nat>): nat {
    if r.Some? then r.value else NPOS
  }

  lemma {:induction false} CrlfFound(s: string, from: nat, at: nat)
    requires from <= at && CrlfAt(s, at)
    requires forall j :: from <= j < at ==> !CrlfAt(s, j)
    ensures FindCrlf(s, from) == Some(at)
    decreases at - from
  {
    if from >= at {
    } else {
      assert !CrlfAt(s, from);
      CrlfFound(s, from + 1, at);
    }
  }

  lemma {:induction false} CrlfMissing(s: string, from: nat, end: nat)
    requires |s| < end + 2
    requires forall j :: from <= j < end ==> !CrlfAt(s, j)
    ensures FindCrlf(s, from) == None
    decreases |s| - from
  {
    if |s| < from + 2 {
    } else {
      assert !CrlfAt(s, from);
      CrlfMissing(s, from + 1, end);
    }
  }

  // ---------------------------------------------------- whitespace and words

  /** `isspace` in the C locale: space, tab, line feed, vertical tab, form feed, carriage return. */
  predicate IsSpace(c: char) {
    c == ' ' || 9 <= c as int <= 13
  }

  predicate Blank(s: string) {
    forall i :: 0 <= i < |s| ==> IsSpace(s[i])
  }

  /** Text without any whitespace. */
  predicate Plain(s: string) {
    forall i :: 0 <= i < |s| ==> !IsSpace(s[i])
  }

  predicate Word(s: string) {
    s != "" && Plain(s)
  }

  predicate AllWords(ws: seq<string>) {
    forall i :: 0 <= i < |ws| ==> Word(ws[i])
  }

  function SkipBlanks(s: string): (r: string)
    ensures |r| <= |s|
    ensures r != "" ==> !IsSpace(r[0])
  {
    if s != "" && IsSpace(s[0]) then SkipBlanks(s[1..]) else s
  }

  function WordLength(s: string): (n: nat)
    ensures n <= |s|
    ensures s != "" && !IsSpace(s[0]) ==> n > 0
  {
    if s == "" || IsSpace(s[0]) then 0 else 1 + WordLength(s[1..])
  }

  /** What `while (iss >> token)` collects. */
  function Words(s: string): seq<string>
    decreases |s|
  {
    var r := SkipBlanks(s);
    if r == "" then [] else [r[..WordLength(r)]] + Words(r[WordLength(r)..])
  }

  lemma {:induction false} WordLengthPlain(s: string)
    ensures Plain(s[..WordLength(s)])
  {
    if s == "" || IsSpace(s[0]) {
    } else {
      WordLengthPlain(s[1..]);
      assert s[..WordLength(s)] == [s[0]] + s[1..][..WordLength(s[1..])];
    }
  }

  /** Every word read from a stream is non-empty and holds no whitespace. */
  lemma {:induction false} WordsAreWords(s: string)
    ensures AllWords(Words(s))
    decreases |s|
  {
    var r := SkipBlanks(s);
    if r == "" {
    } else {
      WordLengthPlain(r);
      WordsAreWords(r[WordLength(r)..]);
    }
  }

  lemma {:induction false} SkipsBlanks(sep: string, rest: string)
    requires Blank(sep)
    requires rest == "" || !IsSpace(rest[0])
    ensures SkipBlanks(sep + rest) == rest
  {
    if sep == "" {
      assert sep + rest == rest;
    } else {
      assert (sep + rest)[1..] == sep[1..] + rest;
      SkipsBlanks(sep[1..], rest);
    }
  }

  lemma {:induction false} MeasuresWord(w: string, rest: string)
    requires Plain(w)
    requires rest == "" || IsSpace(rest[0])
    ensures WordLength(w + rest) == |w|
  {
    if w == "" {
      assert w + rest == rest;
    } else {
      assert (w + rest)[1..] == w[1..] + rest;
      MeasuresWord(w[1..], rest);
    }
  }

  lemma WordsCons(sep: string, w: string, rest: string)
    requires Blank(sep) && Word(w)
    requires rest == "" || IsSpace(rest[0])
    ensures Words(sep + w + rest) == [w] + Words(rest)
  {
    assert sep + w + rest == sep + (w + rest);
    SkipsBlanks(sep, w + rest);
    MeasuresWord(w, rest);
    assert (w + rest)[..|w|] == w && (w + rest)[|w|..] == rest;
  }

  lemma WordsOfBlank(sep: string)
    requires Blank(sep)
    ensures Words(sep) == []
  {
    assert sep + "" == sep;
    SkipsBlanks(sep, "");
  }

  /** Each item preceded by one separator: `seps[i] + items[i]`. */
  function Interleave(seps: seq<string>, items: seq<string>): string
    requires |seps| == |items|
  {
    if items == [] then "" else seps[0] + items[0] + Interleave(seps[1..], items[1..])
  }

  /** Blank separators, all but the first non-empty. */
  predicate Separators(seps: seq<string>) {
    seps != [] ==> Blank(seps[0]) && GapsAll(seps[1..])
  }

  predicate GapsAll(seps: seq<string>) {
    seps != [] ==> seps[0] != "" && Blank(seps[0]) && GapsAll(seps[1..])
  }

  /** Splitting on whitespace recovers words written with any non-empty blank separators. */
  lemma {:induction false} WordsOfInterleave(seps: seq<string>, items: seq<string>, tail: string)
    requires |seps| == |items| && AllWords(items) && Blank(tail) && Separators(seps)
    ensures Words(Interleave(seps, items) + tail) == items
  {
    if items == [] {
      assert Interleave(seps, items) + tail == tail;
      WordsOfBlank(tail);
    } else {
      var rest := Interleave(seps[1..], items[1..]) + tail;
      WordsOfInterleave(seps[1..], items[1..], tail);
      InterleaveStart(seps[1..], items[1..], tail);
      WordsCons(seps[0], items[0], rest);
      InterleaveCons(seps, items, tail);
    }
  }

  lemma InterleaveCons(seps: seq<string>, items: seq<string>, tail: string)
    requires |seps| == |items| && items != []
    ensures Interleave(seps, items) + tail == seps[0] + items[0] + (Interleave(seps[1..], items[1..]) + tail)
  {
  }

  lemma InterleaveStart(seps: seq<string>, items: seq<string>, tail: string)
    requires |seps| == |items| && Blank(tail)
    requires GapsAll(seps)
    ensures var text := Interleave(seps, items) + tail; text == "" || IsSpace(text[0])
  {
    if items != [] {
      assert (Interleave(seps, items) + tail)[0] == seps[0][0];
    }
  }

  /** All six blanks separate words. */
  lemma SixBlanks()
    ensures Words(" SET\tk" + [11 as char] + "v" + [12 as char] + "w\r\n") == ["SET", "k", "v", "w"]
  {
    var vt, ff := [11 as char], [12 as char];
    WordsOfBlank("\r\n");
    WordsCons(ff, "w", "\r\n");
    WordsCons(vt, "v", ff + "w" + "\r\n");
    WordsCons("\t", "k", vt + "v" + (ff + "w" + "\r\n"));
    WordsCons(" ", "SET", "\t" + "k" + (vt + "v" + (ff + "w" + "\r\n")));
    assert " " + "SET" + ("\t" + "k" + (vt + "v" + (ff + "w" + "\r\n"))) == " SET\tk" + vt + "v" + ff + "w\r\n";
  }

  // -------------------------------------------------------------- upper case

  function UpperChar(c: char): char {
    if 'a' <= c <= 'z' then (c as int - 32) as char else c
  }

  function ToUpper(s: string): (r: string)
    ensures |r| == |s|
  {
    seq(|s|, i requires 0 <= i < |s| => UpperChar(s[i]))
  }
}

/** Decimal text: what `std::to_string` and `<<` print and what `stoi`/`stoll` read back. */
module Decimal {
  import opened Bytes

  predicate IsDigit(c: char) {
    '0' <= c <= '9'
  }

  predicate AllDigits(s: string) {
    forall i :: 0 <= i < |s| ==> IsDigit(s[i])
  }

  function DigitValue(c: char): int {
    c as int - '0' as int
  }

  function DigitChar(d: nat): (c: char)
    requires d < 10
    ensures IsDigit(c) && DigitValue(c) == d
  {
    ('0' as int + d) as char
  }

  function ToDecimal(n: nat): (s: string)
    ensures s != ""
  {
    if n < 10 then [DigitChar(n)] else ToDecimal(n / 10) + [DigitChar(n % 10)]
  }

  function DigitsValue(s: string): int {
    if s == "" then 0 else DigitsValue(s[..|s| - 1]) * 10 + DigitValue(s[|s| - 1])
  }

  function DigitPrefix(s: string): (n: nat)
    ensures n <= |s|
  {
    if s == "" || !IsDigit(s[0]) then 0 else 1 + DigitPrefix(s[1..])
  }

  /** The number at the start of `s`, read up to the first non-digit. */
  function Unsigned(s: string): Option<int> {
    if DigitPrefix(s) == 0 then None else Some(DigitsValue(s[..DigitPrefix(s)]))
  }

  function Negated(x: Option<int>): Option<int> {
    if x.Some? then Some(-x.value) else None
  }

  function Signed(s: string): Option<int> {
    if s == "" then None
    else if s[0] == '-' then Negated(Unsigned(s[1..]))
    else Unsigned(if s[0] == '+' then s[1..] else s)
  }

  function InRange(x: Option<int>, lo: int, hi: int): Option<int> {
    if x.Some? && lo <= x.value <= hi then x else None
  }

  /** strtol in base ten: leading blanks, an optional sign, digits, trailing junk ignored.
      None is the invalid_argument (no digits) or out_of_range exception. */
  function Stoi(s: string): (r: Option<int>)
    ensures r.Some? ==> INT_MIN <= r.value <= INT_MAX
  {
    InRange(Signed(SkipBlanks(s)), INT_MIN, INT_MAX)
  }

  function Stoll(s: string): Option<int> {
    InRange(Signed(SkipBlanks(s)), LLONG_MIN, LLONG_MAX)
  }

  lemma {:induction false} DecimalDigits(n: nat)
    ensures AllDigits(ToDecimal(n))
  {
    if n < 10 {
    } else {
      DecimalDigits(n / 10);
    }
  }

  lemma {:induction false} DecimalValue(n: nat)
    ensures DigitsValue(ToDecimal(n)) == n
  {
    var s := ToDecimal(n);
    if n < 10 {
      assert s[..0] == "";
    } else {
      DecimalValue(n / 10);
      assert s[..|s| - 1] == ToDecimal(n / 10);
    }
  }

  lemma {:induction false} WholeDigitPrefix(s: string)
    requires AllDigits(s)
    ensures DigitPrefix(s) == |s|
  {
    if s == "" {
    } else {
      WholeDigitPrefix(s[1..]);
    }
  }

  lemma SignedOfDigits(s: string)
    requires s != "" && AllDigits(s)
    ensures SkipBlanks(s) == s && Signed(s) == Some(DigitsValue(s))
  {
    assert IsDigit(s[0]);
    WholeDigitPrefix(s);
    assert s[..|s|] == s;
  }

  /** Reading back a printed number succeeds exactly when it fits in an int. */
  lemma StoiOfDecimal(n: nat)
    ensures Stoi(ToDecimal(n)) == if n <= INT_MAX then Some(n) else None
  {
    DecimalDigits(n);
    DecimalValue(n);
    SignedOfDigits(ToDecimal(n));
  }
}
