/** The reply side of the wire: the client's decoder, and what it makes of each reply of the server. */
module ReplyCodec {
  import opened Bytes
  import opened Decimal
  import opened Store
  import opened Databases
  import opened RequestCodec
  import opened Commands

  /** The text shown to the user, or an exception (stoi's, or substr's std::out_of_range). */
  datatype Decoded = Text(text: string) | Fault

  const NO_RESPONSE: string :=
    "NO RESPONSE: CHECK SERVER SINCE SERVER SENDS RESPONSE FOR EVERY REQUEST\n"

  /** `substr` then `stoi`. */
  function NumberIn(s: string, pos: nat, count: nat): Option<int> {
    var digits := Substr(s, pos, count);
    if digits.None? then None else Stoi(digits.value)
  }

  function AsText(lead: string, s: Option<string>): Decoded {
    if s.None? then Fault else Text(lead + s.value)
  }

  /** One array element at `i`: the text it adds and where the next one starts. */
  datatype Item = Broken | Piece(text: string, next: nat)

  function DecodeItem(r: string, i: nat): Item {
    var end := Position(FindCrlf(r, i));
    var len := NumberIn(r, Wrap(i + 1), Wrap(end - i - 1));
    if len.None? then Broken else ItemPayload(r, Wrap(end + 2), len.value)
  }

  function ItemPayload(r: string, start: nat, len: int): Item {
    if len == -1 then Piece("NULL ", start)
    else
      var payload := Substr(r, start, Wrap(len));
      if payload.None? then Broken else Piece(payload.value + " ", Wrap(start + len + 2))
  }

  function DecodeItems(r: string, i: nat, n: int): Decoded
    decreases n
  {
    if n <= 0 then Text("")
    else
      match DecodeItem(r, i)
      case Broken => Fault
      case Piece(text, next) => Before(text, DecodeItems(r, next, n - 1))
  }

  function Before(text: string, d: Decoded): Decoded {
    if d.Text? then Text(text + d.text) else d
  }

  function DecodeBulk(r: string): Decoded {
    var pos := Position(FindCrlf(r, 0));
    var len := NumberIn(r, 1, Wrap(pos - 1));
    if len.None? then Fault
    else if len.value == -1 then Text("NULL")
    else AsText("", Substr(r, Wrap(pos + 2), Wrap(len.value)))
  }

  function DecodeArray(r: string): Decoded {
    var end := Position(FindCrlf(r, 0));
    var numElements := NumberIn(r, 1, Wrap(end - 1));
    if numElements.None? then Fault else DecodeItems(r, Wrap(end + 2), numElements.value)
  }

  function DecodeLine(lead: string, r: string): Decoded {
    AsText(lead, Substr(r, 1, Wrap(Position(FindCrlf(r, 0)) - 1)))
  }

  function Decode(response: string): Decoded {
    if response == "" then Text(NO_RESPONSE)
    else if response[0] == '+' then DecodeLine("", response)
    else if response[0] == '-' then DecodeLine("ERROR: ", response)
    else if response[0] == ':' then DecodeLine("", response)
    else if response[0] == '$' then DecodeBulk(response)
    else if response[0] == '*' then DecodeArray(response)
    else Text(response)
  }

  method ParseResponse(response: string) returns (d: Decoded)
    ensures d == Decode(response)
  {
    hide Stoi;
    hide FindCrlf;
    hide DecodeItem;
    if response == "" {
      return Text(NO_RESPONSE);
    }
    var type' := response[0];
    if type' == '+' {
      return AsText("", Substr(response, 1, Wrap(Position(FindCrlf(response, 0)) - 1)));
    } else if type' == '-' {
      return AsText("ERROR: ", Substr(response, 1, Wrap(Position(FindCrlf(response, 0)) - 1)));
    } else if type' == ':' {
      return AsText("", Substr(response, 1, Wrap(Position(FindCrlf(response, 0)) - 1)));
    } else if type' == '$' {
      var pos: int := Position(FindCrlf(response, 0));
      var len := NumberIn(response, 1, Wrap(pos - 1));
      if len == None {
        return Fault;
      }
      if len.value == -1 {
        return Text("NULL");
      }
      return AsText("", Substr(response, Wrap(pos + 2), Wrap(len.value)));
    } else if type' == '*' {
      var end: int := Position(FindCrlf(response, 0));
      var numElements := NumberIn(response, 1, Wrap(end - 1));
      if numElements == None {
        return Fault;
      }
      d := ReadItems(response, Wrap(end + 2), numElements.value);
    } else {
      return Text(response);
    }
  }

  /** The element loop of the array branch. */
  method ReadItems(response: string, start: nat, numElements: int) returns (d: Decoded)
    ensures d == DecodeItems(response, start, numElements)
  {
    hide NumberIn;
    hide Substr;
    hide FindCrlf;
    hide Wrap;
    var i: nat := start;
    var k: int := 0;
    var result := "";
    while k < numElements
      invariant numElements >= 0 ==> k <= numElements
      invariant DecodeItems(response, start, numElements)
             == Before(result, DecodeItems(response, i, numElements - k))
      decreases numElements - k
    {
      ghost var before, at := result, i;
      var end: int := Position(FindCrlf(response, i));
      var len := NumberIn(response, Wrap(i + 1), Wrap(end - i - 1));
      if len == None {
        return Fault;
      }
      i := Wrap(end + 2);
      k := k + 1;
      if len.value == -1 {
        result := result + "NULL ";
        assert DecodeItem(response, at) == Piece("NULL ", i);
        BeforeTwice(before, "NULL ", DecodeItems(response, i, numElements - k));
        continue;
      }
      var payload := Substr(response, i, Wrap(len.value));
      if payload == None {
        return Fault;
      }
      result := result + (payload.value + " ");
      i := Wrap(i + len.value + 2);
      assert DecodeItem(response, at) == Piece(payload.value + " ", i);
      BeforeTwice(before, payload.value + " ", DecodeItems(response, i, numElements - k));
    }
    return Text(result);
  }

  lemma BeforeTwice(a: string, b: string, d: Decoded)
    ensures Before(a, Before(b, d)) == Before(a + b, d)
  {
    if d.Text? {
      assert a + (b + d.text) == a + b + d.text;
    }
  }

  // --------------------------------------------------------------- line replies

  /** A text up to its first CRLF, or all of it. */
  function UpToCrlf(t: string): string {
    if FindCrlf(t, 0).Some? then t[..FindCrlf(t, 0).value] else t
  }

  lemma {:induction false} FindShifted(c: char, t: string, from: nat)
    ensures FindCrlf([c] + t, from + 1) ==
            if FindCrlf(t, from).Some? then Some(FindCrlf(t, from).value + 1) else None
    decreases |t| - from
  {
    var s := [c] + t;
    if |t| < from + 2 {
    } else {
      assert s[from + 1] == t[from] && s[from + 2] == t[from + 1];
      FindShifted(c, t, from + 1);
    }
  }

  lemma LineDecodes(lead: string, c: char, t: string)
    requires c != '\r' && |t| < MAX_SIZE
    ensures DecodeLine(lead, [c] + t) == Text(lead + UpToCrlf(t))
  {
    var s := [c] + t;
    FindShifted(c, t, 0);
    assert FindCrlf(s, 0) == FindCrlf(s, 1);
    assert s[1..] == t;
    if FindCrlf(t, 0).Some? {
      var p := FindCrlf(t, 0).value;
      assert s[1..1 + p] == t[..p];
    }
  }

  lemma {:induction false} FindInTerminated(t: string, from: nat)
    requires from <= |t|
    ensures FindCrlf(t + CRLF, from) == if FindCrlf(t, from).Some? then FindCrlf(t, from) else Some(|t|)
    decreases |t| - from
  {
    var s := t + CRLF;
    if from + 2 <= |t| {
      assert s[from] == t[from] && s[from + 1] == t[from + 1];
      FindInTerminated(t, from + 1);
    } else if from + 1 == |t| {
      assert s[from + 1] == '\r' && s[from + 2] == '\n';
      assert FindCrlf(s, from) == FindCrlf(s, from + 1);
    }
  }

  /** A simple-string reply comes through whole exactly when its text holds no CRLF. */
  lemma {:induction false} SimpleRoundTripIff(t: string)
    requires |t| < MAX_SIZE - 2
    ensures Decode("+" + t + CRLF) == Text(UpToCrlf(t))
    ensures Decode("+" + t + CRLF) == Text(t) <==> FindCrlf(t, 0) == None
  {
    assert "+" + t + CRLF == ['+'] + (t + CRLF);
    LineDecodes("", '+', t + CRLF);
    FindInTerminated(t, 0);
    if FindCrlf(t, 0).Some? {
      assert (t + CRLF)[..FindCrlf(t, 0).value] == t[..FindCrlf(t, 0).value];
    } else {
      assert (t + CRLF)[..|t|] == t;
    }
    assert "" + UpToCrlf(t) == UpToCrlf(t);
    assert FindCrlf(t, 0).Some? ==> |UpToCrlf(t)| < |t|;
  }

  lemma FailureDecodes(t: string)
    requires |t| < MAX_SIZE
    ensures Decode("-" + t) == Text("ERROR: " + UpToCrlf(t))
  {
    LineDecodes("ERROR: ", '-', t);
  }

  lemma NumberDecodes(n: nat)
    requires |ToDecimal(n)| < MAX_SIZE - 2
    ensures Decode(":" + ToDecimal(n) + CRLF) == Text(ToDecimal(n))
  {
    var t := ToDecimal(n);
    assert ":" + t + CRLF == [':'] + (t + CRLF);
    LineDecodes("", ':', t + CRLF);
    FindInTerminated(t, 0);
    DecimalDigits(n);
    CrlfMissing(t, 0, |t|) by {
      assert forall j :: 0 <= j < |t| ==> IsDigit(t[j]);
    }
    assert (t + CRLF)[..|t|] == t;
    assert "" + t == t;
  }

  // --------------------------------------------------------------- bulk replies

  lemma ReadsHeader(r: string, i: nat, lead: char, n: nat)
    requires |r| <= MAX_SIZE && lead != '\r' && n <= INT_MAX
    requires Shows(r, i, Header(lead, n)) && i + |Header(lead, n)| <= |r|
    ensures var d := |ToDecimal(n)|;
      FindCrlf(r, i) == Some(i + 1 + d) && NumberIn(r, i + 1, d) == Some(n)
  {
    FindsHeaderEnd(r, i, lead, n);
    StoiOfDecimal(n);
    assert FindCrlf(r, i) == FindCrlf(r, i + 1);
  }

  lemma ItemDecodes(r: string, i: nat, t: string)
    requires |r| <= MAX_SIZE && |t| <= INT_MAX
    requires Shows(r, i, Bulk(t)) && i + |Bulk(t)| - 2 <= |r|
    ensures DecodeItem(r, i) == Piece(t + " ", i + |Bulk(t)|)
  {
    hide NumberIn;
    hide FindCrlf;
    assert Bulk(t) + "" == Bulk(t);
    BulkInPlace(r, i, t, "");
    ReadsHeader(r, i, '$', |t|);
    ShownWhole(r, i + |Header('$', |t|)|, t);
  }

  /** Every item, each followed by one space. */
  function Joined(items: seq<string>): string {
    if items == [] then "" else items[0] + " " + Joined(items[1..])
  }

  /** The first n items, as soon as their payloads are there. */
  lemma {:induction false} ItemsDecode(r: string, i: nat, items: seq<string>, n: nat)
    requires |r| <= MAX_SIZE && FitsInt(items) && n <= |items|
    requires Shows(r, i, Bulks(items)) && (n > 0 ==> i + |Bulks(items[..n])| - 2 <= |r|)
    ensures DecodeItems(r, i, n) == Text(Joined(items[..n]))
    decreases n
  {
    hide DecodeItem;
    if n == 0 {
    } else {
      assert items[..n][1..] == items[1..][..n - 1];
      ShowsParts(r, i, Bulk(items[0]), Bulks(items[1..]));
      ItemDecodes(r, i, items[0]);
      ItemsDecode(r, i + |Bulk(items[0])|, items[1..], n - 1);
    }
  }

  /** The header of an array leads to its items. */
  lemma {:induction false} ArrayHeaderDecodes(r: string, n: nat)
    requires |r| <= MAX_SIZE && n <= INT_MAX
    requires Shows(r, 0, Header('*', n)) && |Header('*', n)| <= |r|
    ensures Decode(r) == DecodeItems(r, |Header('*', n)|, n)
  {
    hide NumberIn;
    hide DecodeItems;
    hide FindCrlf;
    ReadsHeader(r, 0, '*', n);
  }

  /** An array headed n over at least n strings shows the first n of them, as soon as the last payload among
      them is there; what comes after it is never looked at. */
  lemma ArrayPartDecodes(items: seq<string>, n: nat, room: nat)
    requires FitsInt(items) && n <= |items| && n <= INT_MAX
    requires |Header('*', n)| + (if n == 0 then 0 else |Bulks(items[..n])| - 2) <= room
    requires room <= |ArrayText(n, items)| && room <= MAX_SIZE
    ensures Decode(ArrayText(n, items)[..room]) == Text(Joined(items[..n]))
  {
    hide Decode;
    var r := ArrayText(n, items)[..room];
    ShowsParts(r, 0, Header('*', n), Bulks(items));
    ArrayHeaderDecodes(r, n);
    ItemsDecode(r, |Header('*', n)|, items, n);
  }

  lemma BulksPart(items: seq<string>, n: nat)
    requires n <= |items|
    ensures |Bulks(items[..n])| <= |Bulks(items)|
  {
    BulksAppend(items[..n], items[n..]);
    assert items[..n] + items[n..] == items;
  }

  /** An array headed n over at least n strings shows the first n of them. */
  lemma ArrayDecodes(items: seq<string>, n: nat)
    requires FitsInt(items) && n <= |items| && n <= INT_MAX && |ArrayText(n, items)| <= MAX_SIZE
    ensures Decode(ArrayText(n, items)) == Text(Joined(items[..n]))
  {
    hide Decode;
    var r := ArrayText(n, items);
    BulksPart(items, n);
    ArrayPartDecodes(items, n, |r|);
    assert r[..|r|] == r;
  }

  /** A bulk reply cut anywhere after its header shows what is there of the payload. */
  lemma BulkPartDecodes(v: string, room: nat)
    requires |v| <= INT_MAX && |Header('$', |v|)| <= room <= |Bulk(v)|
    ensures var got := room - |Header('$', |v|)|;
      Decode(Bulk(v)[..room]) == Text(if got < |v| then v[..got] else v)
  {
    hide NumberIn;
    hide FindCrlf;
    hide Substr;
    hide Bulk;
    hide Header;
    var r := Bulk(v)[..room];
    var h := |Header('$', |v|)|;
    HeaderIsShort(|v|);
    BulkPartShows(v, room);
    ReadsHeader(r, 0, '$', |v|);
    PayloadPart(r, h, v);
    var payload := if room - h < |v| then v[..room - h] else v;
    assert "" + payload == payload;
  }

  lemma BulkPartShows(v: string, room: nat)
    requires room <= |Bulk(v)|
    ensures var r := Bulk(v)[..room];
      Shows(r, 0, Header('$', |v|)) && Shows(r, |Header('$', |v|)|, v)
    ensures room > 0 ==> Bulk(v)[..room][0] == '$'
  {
    var r := Bulk(v)[..room];
    assert Bulk(v) + "" == Bulk(v);
    assert Shows(r, 0, Bulk(v));
    hide Header;
    BulkInPlace(r, 0, v, "");
  }

  /** Cutting out a payload of which only a part has arrived. */
  lemma PayloadPart(r: string, h: nat, v: string)
    requires h <= |r| && Shows(r, h, v)
    ensures Substr(r, h, |v|) == Some(if |r| - h < |v| then v[..|r| - h] else v)
  {
    if |r| - h < |v| {
      assert r[h..] == v[..|r| - h];
    } else {
      ShownWhole(r, h, v);
      assert |r| - h == |v| ==> r[h..] == r[h..h + |v|];
    }
  }

  lemma ValueDecodes(v: string)
    requires |v| <= INT_MAX
    ensures Decode(Bulk(v)) == Text(v)
  {
    hide Decode;
    BulkPartDecodes(v, |Bulk(v)|);
    assert Bulk(v)[..|Bulk(v)|] == Bulk(v);
  }

  lemma {:induction false} DecimalIsShort(n: nat)
    ensures |ToDecimal(n)| <= n + 1
  {
    if n < 10 {
    } else {
      DecimalIsShort(n / 10);
    }
  }

  lemma HeaderIsShort(n: nat)
    ensures |Header('$', n)| <= n + 4
  {
    DecimalIsShort(n);
  }

  lemma NilDecodes()
    ensures Decode("$-1\r\n") == Text("NULL")
  {
    var r := "$-1\r\n";
    CrlfFound(r, 0, 3);
    assert r[1..3] == "-1";
    assert "-1"[1..] == "1";
    assert "1"[..0] == "" && "1"[..1] == "1";
    assert DigitPrefix("1"[1..]) == 0;
    assert DigitsValue("1") == 1;
    assert Stoi("-1") == Some(-1);
  }

  lemma IndexMissFaults()
    ensures Decode(INDEX_MISS_TEXT) == Fault
  {
    var r := INDEX_MISS_TEXT;
    var n := |r| - 2;
    assert forall j :: 0 <= j < n ==> !CrlfAt(r, j);
    CrlfFound(r, 0, n);
    var digits := r[1..n];
    assert digits[0] == r[1] == '-' && digits[1] == r[2] == 'E';
    assert digits[1..][0] == digits[1];
    assert SkipBlanks(digits) == digits;
    assert DigitPrefix(digits[1..]) == 0;
    assert Stoi(digits) == None;
  }

  // ------------------------------------------------------------ every reply

  /** Counts and lengths fit in an int. */
  ghost predicate FitsReply(reply: Reply) {
    match reply
    case Value(value) => |value| <= INT_MAX
    case Items(items) => |items| <= INT_MAX && FitsInt(items)
    case FieldNames(hash) => FitsHash(hash)
    case FieldValues(hash) => FitsHash(hash)
    case FieldPairs(hash) => FitsHash(hash)
    case KeyListing(strings, lists) =>
      2 * |strings| + |lists| <= INT_MAX && forall k :: k in strings + lists ==> |k| <= INT_MAX
    case _ => true
  }

  ghost predicate FitsHash(hash: Fields) {
    |hash| <= INT_MAX && forall f :: f in hash ==> |f| <= INT_MAX && |hash[f]| <= INT_MAX
  }

  /** What the client may show for a reply. An HGETALL reply is headed by the number of fields over twice as
      many strings, so only the first half of the flattened pairs is shown. */
  ghost predicate Shown(reply: Reply, text: string) {
    match reply
    case Simple(t) => text == UpToCrlf(t)
    case Failure(t) => text == "ERROR: " + UpToCrlf(t)
    case Number(n) => text == ToDecimal(n)
    case Value(value) => text == value
    case Nil => text == "NULL"
    case IndexMiss => false
    case Items(items) => text == Joined(items)
    case FieldNames(hash) => exists order :: Enumerates(order, hash.Keys) && text == Joined(order)
    case FieldValues(hash) => exists order ::
        Enumerates(order, hash.Keys) && text == Joined(ValuesOf(hash, order))
    case FieldPairs(hash) => exists order ::
        Enumerates(order, hash.Keys) && |hash| <= |Flattened(hash, order)| &&
        text == Joined(Flattened(hash, order)[..|hash|])
    case KeyListing(strings, lists) => exists s, l ::
        Enumerates(s, strings) && Enumerates(l, lists) && text == Joined(s + l + s)
  }

  lemma {:induction false} ValuesFit(hash: Fields, order: seq<string>)
    requires forall f :: f in order ==> f in hash
    requires FitsHash(hash)
    ensures FitsInt(ValuesOf(hash, order))
  {
    if order == [] {
    } else {
      assert order[|order| - 1] in order;
      ValuesFit(hash, order[..|order| - 1]);
    }
  }

  lemma {:induction false} FlattenedFits(hash: Fields, order: seq<string>)
    requires forall f :: f in order ==> f in hash
    requires FitsHash(hash)
    ensures FitsInt(Flattened(hash, order))
  {
    if order == [] {
    } else {
      assert order[|order| - 1] in order;
      FlattenedFits(hash, order[..|order| - 1]);
    }
  }

  lemma WholeArrayDecodes(items: seq<string>)
    requires FitsInt(items) && |items| <= INT_MAX && |ArrayText(|items|, items)| <= MAX_SIZE
    ensures Decode(ArrayText(|items|, items)) == Text(Joined(items))
  {
    ArrayDecodes(items, |items|);
    assert items[..|items|] == items;
  }

  lemma FieldNamesDecode(hash: Fields, bytes: string)
    requires Renders(FieldNames(hash), bytes) && FitsHash(hash) && |bytes| <= MAX_SIZE
    ensures Decode(bytes).Text? && Shown(FieldNames(hash), Decode(bytes).text)
  {
    hide Decode;
    var order :| Enumerates(order, hash.Keys) && bytes == ArrayText(|hash|, order);
    EnumerationSize(order, hash.Keys);
    assert forall i :: 0 <= i < |order| ==> order[i] in hash.Keys;
    WholeArrayDecodes(order);
  }

  lemma FieldValuesDecode(hash: Fields, bytes: string)
    requires Renders(FieldValues(hash), bytes) && FitsHash(hash) && |bytes| <= MAX_SIZE
    ensures Decode(bytes).Text? && Shown(FieldValues(hash), Decode(bytes).text)
  {
    hide Decode;
    var order :| Enumerates(order, hash.Keys) && bytes == ArrayText(|hash|, ValuesOf(hash, order));
    EnumerationSize(order, hash.Keys);
    ValuesLength(hash, order);
    ValuesFit(hash, order);
    WholeArrayDecodes(ValuesOf(hash, order));
  }

  lemma FieldPairsDecode(hash: Fields, bytes: string)
    requires Renders(FieldPairs(hash), bytes) && FitsHash(hash) && |bytes| <= MAX_SIZE
    ensures Decode(bytes).Text? && Shown(FieldPairs(hash), Decode(bytes).text)
  {
    hide Decode;
    var order :| Enumerates(order, hash.Keys) && bytes == ArrayText(|hash|, Flattened(hash, order));
    EnumerationSize(order, hash.Keys);
    FlattenedLength(hash, order);
    FlattenedFits(hash, order);
    ArrayDecodes(Flattened(hash, order), |hash|);
  }

  lemma KeyListingDecodes(strings: set<string>, lists: set<string>, bytes: string)
    requires FitsReply(KeyListing(strings, lists)) && |bytes| <= MAX_SIZE
    ensures Renders(KeyListing(strings, lists), bytes) ==>
      Decode(bytes).Text? && Shown(KeyListing(strings, lists), Decode(bytes).text)
  {
    hide Decode;
    if Renders(KeyListing(strings, lists), bytes) {
      var s, l :| Enumerates(s, strings) && Enumerates(l, lists) && bytes == ArrayText(|s + l + s|, s + l + s);
      EnumerationSize(s, strings);
      EnumerationSize(l, lists);
      KeysFit(s, l, strings, lists);
      WholeArrayDecodes(s + l + s);
    }
  }

  lemma KeysFit(s: seq<string>, l: seq<string>, strings: set<string>, lists: set<string>)
    requires Enumerates(s, strings) && Enumerates(l, lists)
    requires forall k :: k in strings + lists ==> |k| <= INT_MAX
    ensures FitsInt(s + l + s)
  {
    forall i | 0 <= i < |s + l + s|
      ensures |(s + l + s)[i]| <= INT_MAX
    {
      assert (s + l + s)[i] in strings + lists;
    }
  }

  /** `parseResponse` makes the intended text of every complete reply, in whatever order hashes are walked, and
      fails on exactly one kind: the LINDEX miss, whose length field is not a number. */
  lemma ReplyDecodes(reply: Reply, bytes: string)
    requires Renders(reply, bytes) && FitsReply(reply) && |bytes| <= MAX_SIZE
    ensures Decode(bytes) == Fault <==> reply == IndexMiss
    ensures Decode(bytes).Text? ==> Shown(reply, Decode(bytes).text)
  {
    hide Decode;
    match reply
    case Simple(t) => SimpleRoundTripIff(t);
    case Failure(t) => FailureDecodes(t);
    case Number(n) => NumberDecodes(n);
    case Value(value) => ValueDecodes(value);
    case Nil => NilDecodes();
    case IndexMiss => IndexMissFaults();
    case Items(items) => WholeArrayDecodes(items);
    case FieldNames(hash) => FieldNamesDecode(hash, bytes);
    case FieldValues(hash) => FieldValuesDecode(hash, bytes);
    case FieldPairs(hash) => FieldPairsDecode(hash, bytes);
    case KeyListing(strings, lists) => KeyListingDecodes(strings, lists, bytes);
  }

  lemma {:induction false} JoinedShorter(items: seq<string>, n: nat)
    requires n <= |items|
    ensures |Joined(items[..n])| + (|items| - n) <= |Joined(items)|
  {
    if n == 0 {
      if items != [] {
        JoinedShorter(items[1..], 0);
      }
    } else {
      assert items[..n][1..] == items[1..][..n - 1];
      JoinedShorter(items[1..], n - 1);
    }
  }

  /** The client shows all the pairs of an HGETALL reply exactly when there are none: of n pairs it shows the
      first n of 2n strings. */
  lemma HGetAllShownWholeIff(hash: Fields, order: seq<string>)
    requires Enumerates(order, hash.Keys) && FitsHash(hash)
    requires |ArrayText(|hash|, Flattened(hash, order))| <= MAX_SIZE
    ensures Decode(ArrayText(|hash|, Flattened(hash, order))) == Text(Joined(Flattened(hash, order))) <==> hash == map[]
  {
    hide Decode;
    EnumerationSize(order, hash.Keys);
    FlattenedLength(hash, order);
    FlattenedFits(hash, order);
    var items := Flattened(hash, order);
    ArrayDecodes(items, |hash|);
    JoinedShorter(items, |hash|);
    if hash == map[] {
      assert items[..0] == items;
    } else {
      var f :| f in hash.Keys;
      assert hash.Keys != {};
    }
  }
  /** Replies start with the sign of their type and, error lines apart, end in CRLF. */
  lemma RepliesLead(reply: Reply, bytes: string)
    requires Renders(reply, bytes)
    ensures bytes != ""
    ensures bytes[0] == '+' <==> reply.Simple?
    ensures bytes[0] == '-' <==> reply.Failure?
    ensures bytes[0] == ':' <==> reply.Number?
    ensures bytes[0] == '$' <==> reply.Value? || reply.Nil? || reply.IndexMiss?
    ensures !reply.Failure? ==> |bytes| >= 2 && bytes[|bytes| - 2] == '\r' && bytes[|bytes| - 1] == '\n'
  {
    hide ToDecimal;
    if reply.Items? {
      ArrayEnds(|reply.items|, reply.items);
    } else if reply.FieldNames? || reply.FieldValues? || reply.FieldPairs? || reply.KeyListing? {
      WalkedArray(reply, bytes);
    }
  }

  lemma WalkedArray(reply: Reply, bytes: string)
    requires Renders(reply, bytes)
    requires reply.FieldNames? || reply.FieldValues? || reply.FieldPairs? || reply.KeyListing?
    ensures |bytes| >= 2 && bytes[0] == '*' && bytes[|bytes| - 2] == '\r' && bytes[|bytes| - 1] == '\n'
  {
    hide ArrayText;
    forall n, items | bytes == ArrayText(n, items)
      ensures |bytes| >= 2 && bytes[0] == '*' && bytes[|bytes| - 2] == '\r' && bytes[|bytes| - 1] == '\n'
    {
      ArrayEnds(n, items);
    }
  }

  lemma ArrayEnds(n: nat, items: seq<string>)
    ensures var bytes := ArrayText(n, items);
      |bytes| >= 2 && bytes[0] == '*' && bytes[|bytes| - 2] == '\r' && bytes[|bytes| - 1] == '\n'
  {
    if items == [] {
      assert Header('*', n) + "" == Header('*', n);
    } else {
      var k := |items| - 1;
      BulksSnoc(items, k);
      assert items[..k + 1] == items;
    }
  }

  /** Replies written out. */
  lemma SmallReplies()
    ensures Renders(Number(1), ":1\r\n") && Renders(Value("v"), "$1\r\nv\r\n") && Renders(Items([]), "*0\r\n")
    ensures ArrayText(1, ["bottle"]) == "*1\r\n$6\r\nbottle\r\n"
    ensures Decode("*1\r\n$6\r\nbottle\r\n") == Text("bottle ")
  {
    hide Decode;
    assert ToDecimal(1) == "1" && ToDecimal(0) == "0" && ToDecimal(6) == "6";
    OneBulk("bottle");
    assert ArrayText(1, ["bottle"]) == "*1\r\n$6\r\nbottle\r\n";
    ArrayDecodes(["bottle"], 1);
    assert ["bottle"][..1] == ["bottle"];
    assert Joined(["bottle"]) == "bottle" + " " + Joined([]);
  }

  /** A null among the items of an array is shown as NULL. */
  lemma NullItemDecodes(r: string, i: nat)
    requires |r| <= MAX_SIZE && i + 5 <= |r| && r[i..i + 5] == "$-1\r\n"
    ensures DecodeItem(r, i) == Piece("NULL ", i + 5)
  {
    assert r[i] == r[i..i + 5][0] && r[i + 1] == r[i..i + 5][1] && r[i + 2] == r[i..i + 5][2];
    assert r[i + 3] == r[i..i + 5][3] && r[i + 4] == r[i..i + 5][4];
    CrlfFound(r, i, i + 3);
    assert r[i + 1..i + 3] == "-1";
    assert "-1"[1..] == "1";
    assert "1"[..0] == "" && "1"[..1] == "1";
    assert DigitPrefix("1"[1..]) == 0;
    assert DigitsValue("1") == 1;
    assert Stoi("-1") == Some(-1);
  }

  // ------------------------------------------------------------- one receive

  /** What the client shows: `receiveResponse` takes one receive of the reply, `parseResponse` does the rest. */
  function ClientShows(bytes: string): Decoded {
    Decode(Received(bytes))
  }

  /** A value is shown exactly when its payload ends within one receive; a longer one is cut there. */
  lemma ValueShownIff(v: string)
    requires |v| <= INT_MAX
    ensures ClientShows(Bulk(v)) == Text(v) <==> |Bulk(v)| <= RECEIVE_LIMIT + 2
    ensures |Bulk(v)| > RECEIVE_LIMIT + 2 ==> var got := RECEIVE_LIMIT - |Header('$', |v|)|;
      0 < got < |v| && ClientShows(Bulk(v)) == Text(v[..got])
  {
    hide Decode;
    IntHeaderIsShort(|v|);
    var room := |Received(Bulk(v))|;
    assert Received(Bulk(v)) == Bulk(v)[..room];
    BulkPartDecodes(v, room);
  }

  lemma {:induction false} DecimalWidth(n: nat, bound: nat, digits: nat)
    requires n < bound && IsPower(bound, digits)
    ensures |ToDecimal(n)| <= digits
  {
    if n < 10 {
    } else {
      DecimalWidth(n / 10, bound / 10, digits - 1);
    }
  }

  /** `bound` is ten to the power of `digits`, and there is at least one digit. */
  predicate IsPower(bound: nat, digits: nat) {
    if digits <= 1 then digits == 1 && bound == 10 else bound % 10 == 0 && IsPower(bound / 10, digits - 1)
  }

  lemma IntHeaderIsShort(n: nat)
    requires n <= INT_MAX
    ensures |Header('$', n)| <= 13
  {
    DecimalWidth(n, 10_000_000_000, 10);
  }

  /** A simple string without CRLF is shown exactly when it and its CRLF arrive together, or when the cut falls
      precisely between the two. One byte short of that the client shows a carriage return too many. */
  lemma {:induction false} SimpleShownIff(t: string)
    requires FindCrlf(t, 0) == None
    ensures ClientShows("+" + t + CRLF) == Text(t) <==> |t| + 3 <= RECEIVE_LIMIT || |t| + 1 == RECEIVE_LIMIT
  {
    var bytes := "+" + t + CRLF;
    assert bytes == ['+'] + (t + CRLF);
    FindInTerminated(t, 0);
    if |bytes| <= RECEIVE_LIMIT {
      LineDecodes("", '+', t + CRLF);
      assert (t + CRLF)[..|t|] == t;
    } else {
      var part := (t + CRLF)[..RECEIVE_LIMIT - 1];
      assert Received(bytes) == ['+'] + part;
      LineDecodes("", '+', part);
      assert forall j :: 0 <= j < |part| && CrlfAt(part, j) ==> CrlfAt(t + CRLF, j);
      NoCrlfBefore(t + CRLF, 0, |t|);
      CrlfMissing(part, 0, |part|);
      assert "" + part == part;
      assert |t| + 1 == RECEIVE_LIMIT ==> part == t;
    }
    assert "" + t == t;
  }

  lemma {:induction false} NoCrlfBefore(s: string, from: nat, at: nat)
    requires FindCrlf(s, from) == Some(at)
    ensures CrlfAt(s, at) && forall j :: from <= j < at ==> !CrlfAt(s, j)
    decreases at - from
  {
    if CrlfAt(s, from) {
    } else {
      NoCrlfBefore(s, from + 1, at);
    }
  }

  /** An array is shown as intended when the last payload it announces ends within one receive. */
  lemma ArrayShown(items: seq<string>, n: nat)
    requires FitsInt(items) && n <= |items| && n <= INT_MAX
    requires |Header('*', n)| + |Bulks(items[..n])| <= RECEIVE_LIMIT + (if n == 0 then 0 else 2)
    ensures ClientShows(ArrayText(n, items)) == Text(Joined(items[..n]))
  {
    hide Decode;
    BulksPart(items, n);
    var room := |Received(ArrayText(n, items))|;
    assert Received(ArrayText(n, items)) == ArrayText(n, items)[..room];
    ArrayPartDecodes(items, n, room);
  }

  /** Every reply that fits one receive is shown as intended, except the LINDEX miss. */
  lemma ReplyShown(reply: Reply, bytes: string)
    requires Renders(reply, bytes) && FitsReply(reply) && |bytes| <= RECEIVE_LIMIT
    ensures ClientShows(bytes) == Fault <==> reply == IndexMiss
    ensures ClientShows(bytes).Text? ==> Shown(reply, ClientShows(bytes).text)
  {
    hide Decode;
    ReplyDecodes(reply, bytes);
  }

  lemma FourDigits()
    ensures ToDecimal(4080) == "4080" && ToDecimal(1) == "1" && ToDecimal(2) == "2"
  {
    assert ToDecimal(4) == "4";
    assert ToDecimal(40) == "40";
    assert ToDecimal(408) == "408";
  }

  /** The first receive ends after the dollar and the digit of the second header. */
  lemma CutHeaderBytes(a: string, b: string)
    requires |a| == 4080 && |b| == 1
    ensures var r := Received(ArrayText(2, [a, b]));
      |r| == RECEIVE_LIMIT && Shows(r, 0, Header('*', 2)) && Shows(r, 4, Bulk(a)) &&
      |Bulk(a)| == 4089 && r[1] == '2' && r[4093] == '$' && r[4094] == '1'
  {
    hide ToDecimal;
    hide Shows;
    FourDigits();
    TwoBulks(a, b);
    var head, x, y := Header('*', 2), Bulk(a), Bulk(b);
    var r := Received(head + (x + y));
    assert |head| == 4 && |x| == 4089 && |y| == 7;
    assert head[1] == '2' && y[0] == '$' && y[1] == '1';
    hide Bulk;
    hide Header;
    ReceivedParts(head, x, y);
  }

  lemma ReceivedParts(head: string, x: string, y: string)
    requires |head| == 4 && |x| == 4089 && |y| == 7
    ensures var r := Received(head + (x + y));
      |r| == RECEIVE_LIMIT && Shows(r, 0, head) && Shows(r, 4, x) &&
      r[1] == head[1] && r[4093] == y[0] && r[4094] == y[1]
  {
  }

  /** The number and the payload read at the cut header. */
  lemma CutHeaderItem(r: string)
    requires |r| == RECEIVE_LIMIT && r[1] == '2' && r[4093] == '$' && r[4094] == '1'
    ensures DecodeItem(r, 4093) == Piece("2 ", 4)
  {
    CrlfMissing(r, 4093, 4094);
    FourDigits();
    StoiOfDecimal(1);
    assert r[4094..] == "1";
    assert r[1..2] == "2";
    assert Wrap(NPOS + 2) == 1;
  }

  lemma TwoItems(r: string, a: string)
    requires DecodeItem(r, 4) == Piece(a + " ", 4093) && DecodeItem(r, 4093) == Piece("2 ", 4)
    ensures DecodeItems(r, 4, 2) == Text(a + " 2 ")
  {
    hide DecodeItem;
    assert DecodeItems(r, 4093, 1) == Before("2 ", DecodeItems(r, 4, 0));
    assert a + " " + ("2 " + "") == a + " 2 ";
  }

  /** An array cut after the first digit of its second header: the search for the line's end fails, so the
      payload is taken from the start of the reply, and the client shows the item count in place of the
      item. */
  lemma CutArrayIsGarbled(a: string, b: string)
    requires |a| == 4080 && |b| == 1
    ensures ClientShows(ArrayText(2, [a, b])) == Text(a + " 2 ")
    ensures b != "2" ==> ClientShows(ArrayText(2, [a, b])) != Text(Joined([a, b]))
  {
    hide Decode;
    hide DecodeItem;
    hide DecodeItems;
    hide ArrayText;
    hide ToDecimal;
    hide Bulk;
    hide Shows;
    var r := Received(ArrayText(2, [a, b]));
    CutHeaderBytes(a, b);
    FourDigits();
    ArrayHeaderDecodes(r, 2);
    ItemDecodes(r, 4, a);
    CutHeaderItem(r);
    TwoItems(r, a);
    JoinedTwo(a, b);
    assert (a + " 2 ")[4081] == '2' && (a + " " + (b + " "))[4081] == b[0];
  }

  lemma JoinedTwo(a: string, b: string)
    ensures Joined([a, b]) == a + " " + (b + " ")
  {
    assert [a, b][1..] == [b];
    assert Joined([b]) == b + " " + Joined([]);
  }

  // ------------------------------------------------------- the failing command

  /** The command that makes the client fail: LINDEX with an index out of range or at an empty element. */
  predicate IndexesNothing(db: Db, c: Command) {
    && c.OnList? && c.listOp.LIndex?
    && var list := ListAt(db, c.key);
       !(0 <= c.listOp.index < |list|) || list[c.listOp.index] == ""
  }

  lemma MissIsIndexing(db: Db, c: Command)
    requires Apply(db, c).Done?
    ensures Apply(db, c).reply == IndexMiss <==> IndexesNothing(db, c)
  {
  }

  /** Of all commands whose reply fits one receive, exactly these make the client fail; every other reply is
      shown as intended. */
  lemma ClientFailsExactly(db: Db, c: Command, o: Outcome, bytes: string)
    requires o == Apply(db, c) && o.Done?
    requires Renders(o.reply, bytes) && FitsReply(o.reply) && |bytes| <= RECEIVE_LIMIT
    ensures ClientShows(bytes) == Fault <==> IndexesNothing(db, c)
    ensures !IndexesNothing(db, c) ==> ClientShows(bytes).Text? && Shown(o.reply, ClientShows(bytes).text)
  {
    hide Apply;
    hide ClientShows;
    hide Renders;
    hide FitsReply;
    hide Shown;
    hide IndexesNothing;
    MissIsIndexing(db, c);
    ReplyShown(o.reply, bytes);
  }
}
