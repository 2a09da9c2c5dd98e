/** The request side of the wire: the client's encoder and the server's parser. */
module RequestCodec {
  import opened Bytes
  import opened Decimal

  // ------------------------------------------------------------- the encoder

  /** A length line: `*3` or `$5` and a CRLF. */
  function Header(lead: char, n: nat): (h: string)
    ensures |h| == |ToDecimal(n)| + 3
  {
    [lead] + ToDecimal(n) + CRLF
  }

  function Bulk(t: string): (b: string)
    ensures |b| == |Header('$', |t|)| + |t| + 2
  {
    Header('$', |t|) + (t + CRLF)
  }

  function Bulks(ts: seq<string>): string {
    if ts == [] then "" else Bulk(ts[0]) + Bulks(ts[1..])
  }

  function EncodeRequest(ts: seq<string>): string {
    Header('*', |ts|) + Bulks(ts)
  }

  lemma {:induction false} BulksAppend(a: seq<string>, b: seq<string>)
    ensures Bulks(a + b) == Bulks(a) + Bulks(b)
  {
    if a == [] {
      assert a + b == b;
    } else {
      assert (a + b)[1..] == a[1..] + b;
      BulksAppend(a[1..], b);
    }
  }

  lemma OneBulk(t: string)
    ensures Bulks([t]) == Bulk(t)
  {
    hide Bulk;
    assert Bulks([t]) == Bulk(t) + "";
    assert Bulk(t) + "" == Bulk(t);
  }

  lemma TwoBulks(a: string, b: string)
    ensures Bulks([a, b]) == Bulk(a) + Bulk(b)
  {
    hide Bulk;
    assert [a, b][1..] == [b];
    OneBulk(b);
  }

  lemma BulksSnoc(ts: seq<string>, i: nat)
    requires i < |ts|
    ensures Bulks(ts[..i + 1]) == Bulks(ts[..i]) + Bulk(ts[i])
  {
    assert ts[..i + 1] == ts[..i] + [ts[i]];
    BulksAppend(ts[..i], [ts[i]]);
    OneBulk(ts[i]);
  }

  /** A request written out. */
  lemma SmallRequest()
    ensures EncodeRequest(["PING", "TEST"]) == "*2\r\n$4\r\nPING\r\n$4\r\nTEST\r\n"
  {
    TwoBulks("PING", "TEST");
    assert ToDecimal(2) == "2" && ToDecimal(4) == "4";
  }

  lemma {:induction false} JoinBulk(command: string, t: string)
    ensures command + "$" + ToDecimal(|t|) + CRLF + (t + CRLF) == command + Bulk(t)
  {
    assert command + "$" + ToDecimal(|t|) + CRLF == command + Header('$', |t|);
  }

  method ParseSendCommand(tokens: seq<string>) returns (command: string)
    ensures command == EncodeRequest(tokens)
  {
    command := "*" + ToDecimal(|tokens|) + CRLF;
    ghost var head := command;
    for i := 0 to |tokens|
      invariant command == head + Bulks(tokens[..i])
    {
      ghost var before := command;
      command := command + "$" + ToDecimal(|tokens[i]|) + CRLF;
      command := command + (tokens[i] + CRLF);
      JoinBulk(before, tokens[i]);
      BulksSnoc(tokens, i);
      Associates(head, Bulks(tokens[..i]), Bulk(tokens[i]));
    }
    assert tokens[..|tokens|] == tokens;
  }

  lemma Associates<T>(a: seq<T>, b: seq<T>, c: seq<T>)
    ensures (a + b) + c == a + (b + c)
  {
  }

  // -------------------------------------------------------------- the parser

  /** Tokens, or the exception that escapes: stoi's, or std::out_of_range from substr. */
  datatype Parsed = Tokens(tokens: seq<string>) | BadInteger | BadPosition

  function Prepend(ts: seq<string>, r: Parsed): Parsed {
    if r.Tokens? then Tokens(ts + r.tokens) else r
  }

  /** What one pass of the element loop does: break, throw, or read a token and move on. */
  datatype Element = Stop | Throw(error: Parsed) | Read(token: string, next: nat)

  /** One pass at `pos`. A negative length is converted to size_t: it can pass the bounds test, takes the
      rest of the input as the token and moves `pos` backwards. */
  function ReadElement(s: string, pos: nat): Element {
    if pos >= |s| || s[pos] != '$' then Stop
    else
      var crlf := FindCrlf(s, pos + 1);
      if crlf.None? then Stop
      else
        var len := Stoi(s[pos + 1..crlf.value]);
        if len.None? then Throw(BadInteger) else ReadPayload(s, crlf.value + 2, len.value)
  }

  function ReadPayload(s: string, start: nat, len: int): Element {
    if Wrap(start + len) > |s| then Stop
    else
      var token := Substr(s, start, Wrap(len));
      if token.None? then Throw(BadPosition) else Read(token.value, Wrap(start + len + 2))
  }

  /** What the element loop still yields from `pos` with `n` elements to go. */
  function Elements(s: string, pos: nat, n: int): Parsed
    decreases n
  {
    if n <= 0 then Tokens([])
    else
      match ReadElement(s, pos)
      case Stop => Tokens([])
      case Throw(error) => error
      case Read(token, next) => Prepend([token], Elements(s, next, n - 1))
  }

  function ParseRequest(input: string): Parsed {
    if input == "" then Tokens([])
    else if input[0] != '*' then Tokens(Words(input))
    else
      match FindCrlf(input, 1)
      case None => Tokens([])
      case Some(crlf) =>
        match Stoi(input[1..crlf])
        case None => BadInteger
        case Some(numElements) => Elements(input, crlf + 2, numElements)
  }

  /** `while (iss >> token)` over the whole input. */
  method SplitWords(input: string) returns (tokens: seq<string>)
    ensures tokens == Words(input)
  {
    tokens := [];
    var iss := input;
    while true
      invariant tokens + Words(iss) == Words(input)
      decreases |iss|
    {
      iss := SkipBlanks(iss);
      if iss == "" {
        break;
      }
      assert SkipBlanks(iss) == iss;
      var n := WordLength(iss);
      tokens := tokens + [iss[..n]];
      iss := iss[n..];
    }
  }

  method ParseRespCommand(input: string) returns (r: Parsed)
    ensures r == ParseRequest(input)
  {
    hide Stoi;
    hide FindCrlf;
    hide Words;
    hide Elements;
    if input == "" {
      return Tokens([]);
    }
    if input[0] != '*' {
      var words := SplitWords(input);
      return Tokens(words);
    }
    var pos: nat := 1;
    var crlf := FindCrlf(input, pos);
    if crlf == None {
      return Tokens([]);
    }
    var numElements := Stoi(input[pos..crlf.value]);
    if numElements == None {
      return BadInteger;
    }
    pos := crlf.value + 2;
    r := ParseElements(input, pos, numElements.value);
  }

  /** The element loop. */
  method ParseElements(input: string, start: nat, numElements: int) returns (r: Parsed)
    ensures r == Elements(input, start, numElements)
  {
    hide Stoi;
    hide FindCrlf;
    hide Substr;
    hide Wrap;
    hide Elements;
    NoElements(input, start);
    var pos: nat := start;
    var tokens := [];
    var i := 0;
    while i < numElements
      invariant Elements(input, start, numElements) == Prepend(tokens, Elements(input, pos, numElements - i))
      decreases numElements - i
    {
      ghost var before, at := tokens, pos;
      OnePass(input, at, numElements - i);
      if pos >= |input| || input[pos] != '$' {
        assert ReadElement(input, at) == Stop;
        break;
      }
      pos := pos + 1;
      var crlf := FindCrlf(input, pos);
      if crlf == None {
        assert ReadElement(input, at) == Stop;
        break;
      }
      var len := Stoi(input[pos..crlf.value]);
      if len == None {
        return BadInteger;
      }
      pos := crlf.value + 2;
      assert ReadElement(input, at) == ReadPayload(input, pos, len.value);
      if Wrap(pos + len.value) > |input| {
        break;
      }
      var token := Substr(input, pos, Wrap(len.value));
      if token == None {
        return BadPosition;
      }
      tokens := tokens + [token.value];
      pos := Wrap(pos + len.value + 2);
      i := i + 1;
      PrependTwice(before, token.value, Elements(input, pos, numElements - i));
    }
    NoElements(input, pos);
    return Tokens(tokens);
  }

  lemma OnePass(s: string, pos: nat, n: int)
    requires n > 0
    ensures Elements(s, pos, n) ==
            match ReadElement(s, pos)
            case Stop => Tokens([])
            case Throw(error) => error
            case Read(token, next) => Prepend([token], Elements(s, next, n - 1))
  {
    hide ReadElement;
  }

  lemma NoElements(s: string, pos: nat)
    ensures forall n: int :: n <= 0 ==> Elements(s, pos, n) == Tokens([])
  {
  }

  lemma PrependTwice(ts: seq<string>, t: string, r: Parsed)
    ensures Prepend(ts, Prepend([t], r)) == Prepend(ts + [t], r)
  {
    if r.Tokens? {
      assert ts + ([t] + r.tokens) == ts + [t] + r.tokens;
    }
  }

  // ------------------------------------------------------------- totality

  predicate PieceOf(t: string, s: string) {
    exists a: nat, b: nat :: a <= b <= |s| && s[a..b] == t
  }

  lemma ReadTotal(s: string, pos: nat)
    requires |s| <= MAX_SIZE
    ensures match ReadElement(s, pos)
            case Stop => true
            case Throw(error) => error == BadInteger
            case Read(token, next) => PieceOf(token, s)
  {
    if pos < |s| && s[pos] == '$' && FindCrlf(s, pos + 1).Some? {
      var start := FindCrlf(s, pos + 1).value + 2;
      var len := Stoi(s[pos + 1..start - 2]);
      if len.Some? {
        SubstrPiece(s, start, Wrap(len.value));
      }
    }
  }

  lemma {:induction false} ElementsTotal(s: string, pos: nat, n: int)
    requires |s| <= MAX_SIZE
    ensures var r := Elements(s, pos, n);
      r != BadPosition &&
      (r.Tokens? ==> |r.tokens| <= (if n < 0 then 0 else n) &&
                     forall i :: 0 <= i < |r.tokens| ==> PieceOf(r.tokens[i], s))
    decreases n
  {
    hide ReadElement;
    if n <= 0 {
    } else {
      ReadTotal(s, pos);
      match ReadElement(s, pos)
      case Read(token, next) => ElementsTotal(s, next, n - 1);
      case _ =>
    }
  }

  /** One element's payload in plain numbers: nothing when its end lies outside the input; for a negative length the
      whole rest of the input, going on from a place at most one past where the payload began. */
  lemma PayloadRead(s: string, start: nat, len: int)
    requires |s| <= MAX_SIZE && start <= |s| && INT_MIN <= len <= INT_MAX
    ensures ReadPayload(s, start, len) ==
            if start + len < 0 || start + len > |s| then Stop
            else Read(if len < 0 then s[start..] else s[start..start + len], start + len + 2)
  {
  }

  lemma SubstrPiece(s: string, pos: nat, count: nat)
    requires pos <= |s|
    ensures PieceOf(Substr(s, pos, count).value, s)
  {
    assert s[pos..] == s[pos..|s|];
  }

  /** The number announced in the array header, if the input has one that reads as an int. */
  function Announced(input: string): Option<int> {
    if input == "" || input[0] != '*' || FindCrlf(input, 1).None? then None
    else Stoi(input[1..FindCrlf(input, 1).value])
  }

  /** Whatever bytes arrive, negative lengths included, no substring start is ever out of range, no more
      tokens come out than were announced, and every token is a stretch of the input. Only an integer
      conversion can fail. */
  lemma ParserTotal(input: string)
    requires |input| <= MAX_SIZE
    ensures ParseRequest(input) != BadPosition
    ensures input != "" && input[0] == '*' && ParseRequest(input).Tokens? ==>
      var ts := ParseRequest(input).tokens;
      |ts| <= (if Announced(input).Some? && Announced(input).value > 0 then Announced(input).value else 0) &&
      forall i :: 0 <= i < |ts| ==> PieceOf(ts[i], input)
  {
    if Announced(input).Some? {
      ElementsTotal(input, FindCrlf(input, 1).value + 2, Announced(input).value);
    }
  }

  // ------------------------------------------------- truncation and suffixes

  predicate FitsInt(ts: seq<string>) {
    forall i :: 0 <= i < |ts| ==> |ts[i]| <= INT_MAX
  }

  /** How many leading tokens have header and payload inside the first `room` bytes of `Bulks(ts)`. */
  function WholeBulks(ts: seq<string>, room: int): (k: nat)
    ensures k <= |ts|
  {
    if ts == [] || room < |Header('$', |ts[0]|)| + |ts[0]| then 0
    else 1 + WholeBulks(ts[1..], room - |Bulk(ts[0])|)
  }

  /** The same for a whole request of which only the first `n` bytes arrived. */
  function WholeTokens(ts: seq<string>, n: int): nat {
    WholeBulks(ts, n - |Header('*', |ts|)|)
  }

  /** WholeBulks counted by position: token i is included exactly when its payload, two bytes before the
      end of its bulk, has arrived. */
  lemma {:induction false} WholeBulksByPosition(ts: seq<string>, room: int, i: nat)
    requires i < |ts|
    ensures i < WholeBulks(ts, room) <==> |Bulks(ts[..i + 1])| - 2 <= room
  {
    assert ts[..i + 1] == [ts[0]] + ts[1..][..i];
    assert Bulks(ts[..i + 1]) == Bulk(ts[0]) + Bulks(ts[1..][..i]);
    if i == 0 {
      assert Bulks(ts[1..][..0]) == "";
    } else {
      WholeBulksByPosition(ts[1..], room - |Bulk(ts[0])|, i - 1);
      BulksLonger(ts[1..][..i]);
    }
  }

  lemma BulksLonger(ts: seq<string>)
    requires ts != []
    ensures |Bulks(ts)| >= 2
  {
  }

  lemma WholeTokensByPosition(ts: seq<string>, n: int, i: nat)
    requires i < |ts|
    ensures i < WholeTokens(ts, n) <==> |Header('*', |ts|) + Bulks(ts[..i + 1])| - 2 <= n
  {
    WholeBulksByPosition(ts, n - |Header('*', |ts|)|, i);
  }

  /** From `pos` on, `s` agrees with `text` as far as both go. */
  predicate Shows(s: string, pos: int, text: string) {
    forall i :: 0 <= pos <= i < |s| && i < pos + |text| ==> s[i] == text[i - pos]
  }

  lemma ShowsParts(s: string, pos: nat, a: string, b: string)
    requires Shows(s, pos, a + b)
    ensures Shows(s, pos, a) && Shows(s, pos + |a|, b)
  {
    forall i | pos + |a| <= i < |s| && i < pos + |a| + |b|
      ensures s[i] == b[i - pos - |a|]
    {
      assert s[i] == (a + b)[i - pos];
    }
    forall i | pos <= i < |s| && i < pos + |a|
      ensures s[i] == a[i - pos]
    {
      assert s[i] == (a + b)[i - pos];
    }
  }

  lemma ShownWhole(s: string, pos: nat, t: string)
    requires Shows(s, pos, t) && pos + |t| <= |s|
    ensures s[pos..pos + |t|] == t
  {
  }

  /** Where the CRLF search lands on a possibly cut header standing at `pos`. */
  lemma {:induction false} FindsHeaderEnd(s: string, pos: nat, lead: char, n: nat)
    requires pos < |s| && Shows(s, pos, Header(lead, n))
    ensures var d := |ToDecimal(n)|;
      s[pos] == lead &&
      if |s| - pos < d + 3 then FindCrlf(s, pos + 1) == None
      else FindCrlf(s, pos + 1) == Some(pos + 1 + d) && s[pos + 1..pos + 1 + d] == ToDecimal(n)
  {
    var digits := ToDecimal(n);
    var d := |digits|;
    DecimalDigits(n);
    ShowsParts(s, pos, [lead] + digits, CRLF);
    ShowsParts(s, pos, [lead], digits);
    assert s[pos] == [lead][0];
    forall i | pos + 1 <= i < pos + 1 + d
      ensures !CrlfAt(s, i)
    {
      if i < |s| {
        assert s[i] == digits[i - pos - 1];
      }
    }
    if |s| - pos < d + 3 {
      CrlfMissing(s, pos + 1, pos + 1 + d);
    } else {
      ShownWhole(s, pos + 1, digits);
      ShownWhole(s, pos + 1 + d, CRLF);
      CrlfFound(s, pos + 1, pos + 1 + d);
    }
  }

  lemma {:induction false} ElementsOfPart(s: string, pos: nat, ts: seq<string>)
    requires |s| <= MAX_SIZE && FitsInt(ts) && Shows(s, pos, Bulks(ts))
    requires pos <= |s| + 2
    ensures Elements(s, pos, |ts|) == Tokens(ts[..WholeBulks(ts, |s| - pos)])
    decreases |ts|
  {
    hide ReadElement;
    if ts == [] {
    } else {
      var t := ts[0];
      BulkInPlace(s, pos, t, Bulks(ts[1..]));
      ReadsBulk(s, pos, t);
      if pos + |Bulk(t)| - 2 <= |s| {
        ElementsOfPart(s, pos + |Bulk(t)|, ts[1..]);
        TakeCons(ts, WholeBulks(ts[1..], |s| - pos - |Bulk(t)|));
      }
    }
  }

  /** One pass over a possibly cut bulk string. */
  lemma {:induction false} ReadsBulk(s: string, pos: nat, t: string)
    requires |s| <= MAX_SIZE
    requires Shows(s, pos, Header('$', |t|)) && Shows(s, pos + |Header('$', |t|)|, t)
    ensures ReadElement(s, pos) ==
            if pos + |Bulk(t)| - 2 > |s| && |t| <= INT_MAX then Stop
            else if pos + |Header('$', |t|)| > |s| then Stop
            else if |t| > INT_MAX then Throw(BadInteger)
            else Read(t, pos + |Bulk(t)|)
  {
    if pos < |s| {
      FindsHeaderEnd(s, pos, '$', |t|);
      StoiOfDecimal(|t|);
      if pos + |Bulk(t)| - 2 <= |s| {
        ShownWhole(s, pos + |Header('$', |t|)|, t);
      }
    }
  }

  lemma BulkInPlace(s: string, pos: nat, t: string, rest: string)
    requires Shows(s, pos, Bulk(t) + rest)
    ensures Shows(s, pos, Header('$', |t|))
    ensures Shows(s, pos + |Header('$', |t|)|, t)
    ensures Shows(s, pos + |Bulk(t)|, rest)
  {
    ShowsParts(s, pos, Bulk(t), rest);
    ShowsParts(s, pos, Header('$', |t|), t + CRLF);
    ShowsParts(s, pos + |Header('$', |t|)|, t, CRLF);
  }

  lemma TakeCons<T>(ts: seq<T>, k: nat)
    requires k < |ts|
    ensures ts[..1 + k] == [ts[0]] + ts[1..][..k]
  {
  }

  /** Whatever follows an encoded request, and wherever the bytes received stop, the parser returns exactly
      the tokens whose header and payload arrived whole: always a prefix, never a wrong or split token. */
  lemma TruncatedRequest(ts: seq<string>, tail: string, n: nat)
    requires |ts| <= INT_MAX && FitsInt(ts)
    requires n <= |EncodeRequest(ts) + tail| && n <= MAX_SIZE
    ensures ParseRequest((EncodeRequest(ts) + tail)[..n]) == Tokens(ts[..WholeTokens(ts, n)])
  {
    hide Elements;
    hide EncodeRequest;
    var s := (EncodeRequest(ts) + tail)[..n];
    if n == 0 {
    } else {
      hide ParseRequest;
      HeaderStep(ts, tail, s);
      if n >= |Header('*', |ts|)| {
        ElementsOfPart(s, |Header('*', |ts|)|, ts);
      }
    }
  }

  /** The array header leads to the elements, and a cut one to no tokens. */
  lemma HeaderStep(ts: seq<string>, tail: string, s: string)
    requires |ts| <= INT_MAX && s <= EncodeRequest(ts) + tail && s != ""
    ensures Shows(s, |Header('*', |ts|)|, Bulks(ts))
    ensures ParseRequest(s) ==
            if |s| < |Header('*', |ts|)| then Tokens([]) else Elements(s, |Header('*', |ts|)|, |ts|)
  {
    hide Elements;
    hide FindCrlf;
    hide Stoi;
    hide EncodeRequest;
    hide Shows;
    RequestInPlace(ts, tail, s);
    StoiOfDecimal(|ts|);
  }

  lemma {:induction false} RequestInPlace(ts: seq<string>, tail: string, s: string)
    requires s <= EncodeRequest(ts) + tail && s != ""
    ensures Shows(s, |Header('*', |ts|)|, Bulks(ts))
    ensures var d := |ToDecimal(|ts|)|;
      s[0] == '*' &&
      if |s| < d + 3 then FindCrlf(s, 1) == None
      else FindCrlf(s, 1) == Some(1 + d) && s[1..1 + d] == ToDecimal(|ts|)
  {
    ShowsParts(s, 0, EncodeRequest(ts), tail);
    ShowsParts(s, 0, Header('*', |ts|), Bulks(ts));
    FindsHeaderEnd(s, 0, '*', |ts|);
  }

  lemma NoBulkStops(s: string, pos: nat, n: nat)
    requires pos <= |s| && (s[pos..] == "" || s[pos..][0] != '$')
    ensures Elements(s, pos, n) == Tokens([])
  {
    hide ReadPayload;
    assert pos < |s| ==> s[pos..][0] == s[pos];
    assert ReadElement(s, pos) == Stop;
  }

  /** Whole bulks followed by something that is no bulk: as many of them as were announced. */
  lemma {:induction false} ElementsBeforeJunk(s: string, pos: nat, ts: seq<string>, n: nat, junk: string)
    requires |s| <= MAX_SIZE && FitsInt(ts) && pos + |Bulks(ts)| <= |s|
    requires Shows(s, pos, Bulks(ts)) && s[pos + |Bulks(ts)|..] == junk && (junk == "" || junk[0] != '$')
    ensures Elements(s, pos, n) == Tokens(if n <= |ts| then ts[..n] else ts)
    decreases |ts|
  {
    hide ReadElement;
    if n == 0 {
    } else if ts == [] {
      NoBulkStops(s, pos, n);
    } else {
      var t := ts[0];
      BulkInPlace(s, pos, t, Bulks(ts[1..]));
      ReadsBulk(s, pos, t);
      ElementsBeforeJunk(s, pos + |Bulk(t)|, ts[1..], n - 1, junk);
      if n <= |ts| {
        TakeCons(ts, n - 1);
      }
    }
  }

  /** A request that announces n elements and brings whole bulks, then something that is no bulk or nothing at all: the
      parse gives the first n of them, or all when there are fewer, and no error. */
  lemma AnnouncedTokens(ts: seq<string>, n: nat, junk: string)
    requires n <= INT_MAX && FitsInt(ts) && (junk == "" || junk[0] != '$')
    requires |Header('*', n) + Bulks(ts) + junk| <= MAX_SIZE
    ensures ParseRequest(Header('*', n) + Bulks(ts) + junk) == Tokens(if n <= |ts| then ts[..n] else ts)
  {
    hide Elements;
    hide FindCrlf;
    hide Stoi;
    hide Header;
    hide ParseRequest;
    hide Shows;
    var head := Header('*', n);
    var s := head + Bulks(ts) + junk;
    assert s == head + (Bulks(ts) + junk);
    AnyHeader(s, n, Bulks(ts) + junk);
    ShowsParts(s, |head|, Bulks(ts), junk);
    assert s[|head| + |Bulks(ts)|..] == junk;
    ElementsBeforeJunk(s, |head|, ts, n, junk);
  }

  lemma AnyHeader(s: string, n: nat, rest: string)
    requires n <= INT_MAX && s == Header('*', n) + rest
    ensures ParseRequest(s) == Elements(s, |Header('*', n)|, n)
    ensures Shows(s, |Header('*', n)|, rest)
  {
    hide Elements;
    hide FindCrlf;
    hide Stoi;
    ShowsParts(s, 0, Header('*', n), rest);
    FindsHeaderEnd(s, 0, '*', n);
    StoiOfDecimal(n);
  }

  lemma {:induction false} AllBulksWhole(ts: seq<string>, room: int)
    requires |Bulks(ts)| <= room
    ensures WholeBulks(ts, room) == |ts|
  {
    if ts == [] {
    } else {
      AllBulksWhole(ts[1..], room - |Bulk(ts[0])|);
    }
  }

  /** The request round trip, with any bytes after it. */
  lemma RequestRoundTrip(ts: seq<string>, tail: string)
    requires |ts| <= INT_MAX && FitsInt(ts)
    requires |EncodeRequest(ts) + tail| <= MAX_SIZE
    ensures ParseRequest(EncodeRequest(ts) + tail) == Tokens(ts)
  {
    hide ParseRequest;
    var whole := EncodeRequest(ts) + tail;
    TruncatedRequest(ts, tail, |whole|);
    assert whole[..|whole|] == whole;
    AllBulksWhole(ts, |whole| - |Header('*', |ts|)|);
  }

  lemma {:induction false} ElementsOfOversized(s: string, pos: nat, ts: seq<string>)
    requires |s| <= MAX_SIZE && !FitsInt(ts)
    requires Shows(s, pos, Bulks(ts)) && pos + |Bulks(ts)| <= |s|
    ensures Elements(s, pos, |ts|) == BadInteger
    decreases |ts|
  {
    hide ReadElement;
    var t := ts[0];
    BulkInPlace(s, pos, t, Bulks(ts[1..]));
    ReadsBulk(s, pos, t);
    if |t| > INT_MAX {
    } else {
      assert !FitsInt(ts[1..]);
      ElementsOfOversized(s, pos + |Bulk(t)|, ts[1..]);
    }
  }

  /** The exact domain of the round trip: the token count and every length must fit in an int.
      Outside it the parse ends in stoi's exception. */
  lemma RequestRoundTripExactly(ts: seq<string>, tail: string)
    requires |EncodeRequest(ts) + tail| <= MAX_SIZE
    ensures ParseRequest(EncodeRequest(ts) + tail) ==
            if |ts| <= INT_MAX && FitsInt(ts) then Tokens(ts) else BadInteger
  {
    if |ts| <= INT_MAX && FitsInt(ts) {
      RequestRoundTrip(ts, tail);
    } else {
      var s := EncodeRequest(ts) + tail;
      RequestInPlace(ts, tail, s);
      StoiOfDecimal(|ts|);
      if |ts| <= INT_MAX {
        ElementsOfOversized(s, |Header('*', |ts|)|, ts);
      }
    }
  }

  /** Words with any blank separators, unless the line starts with a star, parse to the words. */
  lemma InlineParses(seps: seq<string>, ts: seq<string>, blanks: string)
    requires |seps| == |ts| && Separators(seps) && Blank(blanks) && AllWords(ts)
    requires ts == [] || seps[0] != "" || ts[0][0] != '*'
    ensures ParseRequest(Interleave(seps, ts) + blanks) == Tokens(ts)
  {
    WordsOfInterleave(seps, ts, blanks);
    var line := Interleave(seps, ts) + blanks;
    assert line == "" || line[0] != '*' by {
      if ts != [] {
        InterleaveCons(seps, ts, blanks);
        assert line[0] == if seps[0] == "" then ts[0][0] else seps[0][0];
      }
    }
    WordsOfBlank("");
  }

  /** Both framings of one command parse alike: words with any blank separators, unless the line starts
      with a star, and the array form. */
  lemma FramingsAgree(seps: seq<string>, ts: seq<string>, blanks: string, tail: string)
    requires |seps| == |ts| <= INT_MAX && Separators(seps) && Blank(blanks)
    requires AllWords(ts) && FitsInt(ts)
    requires ts == [] || seps[0] != "" || ts[0][0] != '*'
    requires |EncodeRequest(ts) + tail| <= MAX_SIZE
    ensures ParseRequest(Interleave(seps, ts) + blanks) == ParseRequest(EncodeRequest(ts) + tail) == Tokens(ts)
  {
    RequestRoundTrip(ts, tail);
    InlineParses(seps, ts, blanks);
  }
}
