/** The tokens a client writes for each command, and that they mean that command. */
module Requests {
  import opened Bytes
  import opened Decimal
  import opened Store
  import opened RequestCodec
  import opened ReplyCodec
  import opened Commands
  import opened Runs
  import opened Sessions

  /** How a command is spelled. */
  function Spelled(name: Name): string {
    match name
    case PING => "PING"
    case ECHO => "ECHO"
    case FLUSHALL => "FLUSHALL"
    case SET => "SET"
    case GET => "GET"
    case KEYS => "KEYS"
    case TYPE => "TYPE"
    case DEL => "DEL"
    case UNLINK => "UNLINK"
    case EXPIRE => "EXPIRE"
    case RENAME => "RENAME"
    case LSET => "LSET"
    case LGET => "LGET"
    case LLEN => "LLEN"
    case LPUSH => "LPUSH"
    case RPUSH => "RPUSH"
    case LPOP => "LPOP"
    case RPOP => "RPOP"
    case LREM => "LREM"
    case LINDEX => "LINDEX"
    case HSET => "HSET"
    case HGET => "HGET"
    case HEXISTS => "HEXISTS"
    case HDEL => "HDEL"
    case HLEN => "HLEN"
    case HKEYS => "HKEYS"
    case HVALS => "HVALS"
    case HGETALL => "HGETALL"
    case HMSET => "HMSET"
  }

  /** A number as a client writes it. */
  function NumberText(n: int): string {
    if n < 0 then "-" + ToDecimal(-n) else ToDecimal(n)
  }

  /** field value field value ... */
  function PairTokens(pairs: seq<(string, string)>): seq<string> {
    if pairs == [] then []
    else PairTokens(pairs[..|pairs| - 1]) + [pairs[|pairs| - 1].0, pairs[|pairs| - 1].1]
  }

  function ListTokens(key: string, op: ListOp): seq<string> {
    match op
    case LSet(index, value) => [Spelled(LSET), key, NumberText(index), value]
    case LGet => [Spelled(LGET), key]
    case LLen => [Spelled(LLEN), key]
    case LPush(values) => [Spelled(LPUSH), key] + values
    case RPush(values) => [Spelled(RPUSH), key] + values
    case LPop => [Spelled(LPOP), key]
    case RPop => [Spelled(RPOP), key]
    case LRem(count, value) => [Spelled(LREM), key, NumberText(count), value]
    case LIndex(index) => [Spelled(LINDEX), key, NumberText(index)]
  }

  function HashTokens(key: string, op: HashOp): seq<string> {
    match op
    case HSet(field, value) => [Spelled(HSET), key, field, value]
    case HGet(field) => [Spelled(HGET), key, field]
    case HExists(field) => [Spelled(HEXISTS), key, field]
    case HDel(field) => [Spelled(HDEL), key, field]
    case HLen => [Spelled(HLEN), key]
    case HKeys => [Spelled(HKEYS), key]
    case HVals => [Spelled(HVALS), key]
    case HGetAll => [Spelled(HGETALL), key]
    case HMSet(pairs) => [Spelled(HMSET), key] + PairTokens(pairs)
  }

  /** The request for a command, as the command list of the documentation gives it. */
  function TokensOf(c: Command): seq<string> {
    match c
    case Ping => [Spelled(PING)]
    case Echo(message) => [Spelled(ECHO), message]
    case FlushAll => [Spelled(FLUSHALL)]
    case Set(key, value) => [Spelled(SET), key, value]
    case Get(key) => [Spelled(GET), key]
    case Keys => [Spelled(KEYS)]
    case Type(key) => [Spelled(TYPE), key]
    case Del(key) => [Spelled(DEL), key]
    case Expire(key, seconds, _) => [Spelled(EXPIRE), key, seconds]
    case Rename(oldKey, newKey) => [Spelled(RENAME), oldKey, newKey]
    case OnList(key, op) => ListTokens(key, op)
    case OnHash(key, op) => HashTokens(key, op)
    case Usage(_, _) => []
    case Unknown(cmd) => [cmd]
    case NotANumber => []
  }

  predicate FitsListOp(op: ListOp) {
    match op
    case LSet(index, _) => INT_MIN <= index <= INT_MAX
    case LRem(count, _) => INT_MIN < count <= INT_MAX
    case LIndex(index) => INT_MIN <= index <= INT_MAX
    case LPush(values) => values != []
    case RPush(values) => values != []
    case _ => true
  }

  /** Commands that can be asked for: numbers fit an int, and there is something to push or set. */
  predicate Askable(c: Command) {
    match c
    case OnList(_, op) => FitsListOp(op)
    case OnHash(_, op) => op.HMSet? ==> op.pairs != []
    case Usage(_, _) => false
    case Unknown(_) => false
    case NotANumber => false
    case _ => true
  }

  lemma SpelledInCapitals(name: Name)
    ensures ToUpper(Spelled(name)) == Spelled(name)
  {
  }

  lemma NamesAreSpelled(name: Name)
    ensures NameOf(ToUpper(Spelled(name))) == Some(name)
  {
    SpelledInCapitals(name);
    hide ToUpper;
    if name in {PING, ECHO, FLUSHALL, SET, GET, KEYS, TYPE, DEL, UNLINK, EXPIRE, RENAME} {
      KeyNamesFound(name);
    } else if name in {LSET, LGET, LLEN, LPUSH, RPUSH, LPOP, RPOP, LREM, LINDEX} {
      ListNamesFound(name);
    } else {
      HashNamesFound(name);
    }
  }

  lemma KeyNamesFound(name: Name)
    requires name in {PING, ECHO, FLUSHALL, SET, GET, KEYS, TYPE, DEL, UNLINK, EXPIRE, RENAME}
    ensures NameOf(Spelled(name)) == Some(name)
  {
  }

  lemma ListNamesFound(name: Name)
    requires name in {LSET, LGET, LLEN, LPUSH, RPUSH, LPOP, RPOP, LREM, LINDEX}
    ensures NameOf(Spelled(name)) == Some(name)
  {
  }

  lemma HashNamesFound(name: Name)
    requires name in {HSET, HGET, HEXISTS, HDEL, HLEN, HKEYS, HVALS, HGETALL, HMSET}
    ensures NameOf(Spelled(name)) == Some(name)
  {
  }

  // ----------------------------------------------------------------- numbers

  lemma {:induction false} PrefixOfDigits(digits: string, junk: string)
    requires AllDigits(digits) && (junk == "" || !IsDigit(junk[0]))
    ensures DigitPrefix(digits + junk) == |digits|
  {
    if digits == "" {
      assert digits + junk == junk;
    } else {
      assert (digits + junk)[1..] == digits[1..] + junk;
      PrefixOfDigits(digits[1..], junk);
    }
  }

  lemma UnsignedRead(n: nat, junk: string)
    requires junk == "" || !IsDigit(junk[0])
    ensures Unsigned(ToDecimal(n) + junk) == Some(n)
  {
    var digits := ToDecimal(n);
    DecimalDigits(n);
    DecimalValue(n);
    PrefixOfDigits(digits, junk);
    assert (digits + junk)[..|digits|] == digits;
  }

  /** stoi reads a number after blanks and an optional sign, stops at the first character that is no digit, and throws
      out of the range of an int. */
  lemma {:induction false} StoiReads(blanks: string, sign: string, n: int, junk: string)
    requires n >= 0 && Blank(blanks) && sign in ["", "+", "-"] && (junk == "" || !IsDigit(junk[0]))
    ensures var value := if sign == "-" then -n else n;
      Stoi(blanks + (sign + (ToDecimal(n) + junk))) == if INT_MIN <= value <= INT_MAX then Some(value) else None
  {
    var text := ToDecimal(n) + junk;
    DecimalDigits(n);
    assert text[0] == ToDecimal(n)[0];
    assert IsDigit(text[0]);
    UnsignedRead(n, junk);
    assert sign == "" ==> sign + text == text;
    assert sign != "" ==> (sign + text)[0] == sign[0] && (sign + text)[1..] == text;
    SkipsBlanks(blanks, sign + text);
  }

  /** And it throws when no digit follows. */
  lemma StoiThrows(blanks: string, sign: string, junk: string)
    requires Blank(blanks) && sign in ["", "+", "-"] && (junk == "" || !IsDigit(junk[0]))
    requires sign == "" && junk != "" ==> !IsSpace(junk[0]) && junk[0] != '+' && junk[0] != '-'
    ensures Stoi(blanks + (sign + junk)) == None
  {
    assert sign == "" ==> sign + junk == junk;
    assert sign != "" ==> (sign + junk)[0] == sign[0] && (sign + junk)[1..] == junk;
    SkipsBlanks(blanks, sign + junk);
  }

  lemma NumberRead(n: int)
    requires INT_MIN <= n <= INT_MAX
    ensures Stoi(NumberText(n)) == Some(n)
  {
    var digits := ToDecimal(if n < 0 then -n else n);
    assert digits + "" == digits;
    StoiReads("", if n < 0 then "-" else "", if n < 0 then -n else n, "");
    assert "" + (digits + "") == digits && "" + digits == digits;
    assert "" + ("-" + (digits + "")) == "-" + digits;
    assert "" + ("" + (digits + "")) == digits;
  }

  // ------------------------------------------------------------ what they mean

  lemma {:induction false} PairsRead(name: string, key: string, pairs: seq<(string, string)>)
    ensures |PairTokens(pairs)| == 2 * |pairs|
    ensures PairsOf([name, key] + PairTokens(pairs)) == pairs
  {
    if pairs == [] {
    } else {
      var n := |pairs| - 1;
      var init, all := [name, key] + PairTokens(pairs[..n]), [name, key] + PairTokens(pairs);
      PairsRead(name, key, pairs[..n]);
      assert all == init + [pairs[n].0, pairs[n].1];
      assert all[..|all| - 2] == init;
      assert pairs[..n] + [pairs[n]] == pairs;
    }
  }

  /** A request whose first token spells a name. */
  lemma MeaningOf(ts: seq<string>, name: Name, now: int)
    requires ts != [] && ts[0] == Spelled(name) && NamedInDomain(name, ts)
    ensures InDomain(ts) && Interpret(ts, now) == Meaning(name, ToUpper(Spelled(name)), ts, now)
  {
    hide ToUpper;
    hide NameOf;
    hide Spelled;
    hide Meaning;
    NamesAreSpelled(name);
  }

  lemma ListTokensMean(key: string, op: ListOp, now: int)
    requires FitsListOp(op)
    ensures var ts := ListTokens(key, op); InDomain(ts) && Interpret(ts, now) == OnList(key, op)
  {
    hide Stoi;
    hide NameOf;
    hide ToUpper;
    hide Interpret;
    hide InDomain;
    hide Spelled;
    hide NumberText;
    var ts := ListTokens(key, op);
    match op
    case LSet(index, _) => NumberRead(index); MeaningOf(ts, LSET, now);
    case LGet => MeaningOf(ts, LGET, now);
    case LLen => MeaningOf(ts, LLEN, now);
    case LPush(values) =>
      assert ts[2..] == values;
      MeaningOf(ts, LPUSH, now);
    case RPush(values) =>
      assert ts[2..] == values;
      MeaningOf(ts, RPUSH, now);
    case LPop => MeaningOf(ts, LPOP, now);
    case RPop => MeaningOf(ts, RPOP, now);
    case LRem(count, _) => NumberRead(count); MeaningOf(ts, LREM, now);
    case LIndex(index) => NumberRead(index); MeaningOf(ts, LINDEX, now);
  }

  lemma HashTokensMean(key: string, op: HashOp, now: int)
    requires op.HMSet? ==> op.pairs != []
    ensures var ts := HashTokens(key, op); InDomain(ts) && Interpret(ts, now) == OnHash(key, op)
  {
    hide Stoi;
    hide NameOf;
    hide ToUpper;
    hide Interpret;
    hide InDomain;
    hide Spelled;
    hide PairsOf;
    var ts := HashTokens(key, op);
    match op
    case HSet(_, _) => MeaningOf(ts, HSET, now);
    case HGet(_) => MeaningOf(ts, HGET, now);
    case HExists(_) => MeaningOf(ts, HEXISTS, now);
    case HDel(_) => MeaningOf(ts, HDEL, now);
    case HLen => MeaningOf(ts, HLEN, now);
    case HKeys => MeaningOf(ts, HKEYS, now);
    case HVals => MeaningOf(ts, HVALS, now);
    case HGetAll => MeaningOf(ts, HGETALL, now);
    case HMSet(pairs) => PairTokensMean(key, pairs, now);
  }

  lemma PairTokensMean(key: string, pairs: seq<(string, string)>, now: int)
    requires pairs != []
    ensures var ts := HashTokens(key, HMSet(pairs)); InDomain(ts) && Interpret(ts, now) == OnHash(key, HMSet(pairs))
  {
    hide Stoi;
    hide NameOf;
    hide ToUpper;
    hide Interpret;
    hide InDomain;
    hide Spelled;
    hide PairsOf;
    hide PairTokens;
    PairsRead(Spelled(HMSET), key, pairs);
    MeaningOf(HashTokens(key, HMSet(pairs)), HMSET, now);
  }

  lemma KeyTokensMean(c: Command, now: int)
    requires Askable(c) && !c.OnList? && !c.OnHash? && (c.Expire? ==> c.now == now)
    ensures TokensOf(c) != [] && InDomain(TokensOf(c)) && Interpret(TokensOf(c), now) == c
  {
    hide Stoi;
    hide ToUpper;
    hide Spelled;
    hide Interpret;
    hide InDomain;
    assert TokensOf(c)[0] == Spelled(NameOfCommand(c));
    MeaningOf(TokensOf(c), NameOfCommand(c), now);
  }

  /** The tokens written for a command mean that command. */
  lemma TokensMean(c: Command, now: int)
    requires Askable(c) && (c.Expire? ==> c.now == now)
    ensures TokensOf(c) != [] && InDomain(TokensOf(c)) && Interpret(TokensOf(c), now) == c
  {
    hide Interpret;
    hide InDomain;
    match c
    case OnList(key, op) => ListTokensMean(key, op, now);
    case OnHash(key, op) => HashTokensMean(key, op, now);
    case _ => KeyTokensMean(c, now);
  }

  /** UNLINK is DEL under another name. */
  lemma UnlinkIsDel(key: string, now: int)
    ensures InDomain([Spelled(UNLINK), key]) && Interpret([Spelled(UNLINK), key], now) == Del(key)
  {
    hide NameOf;
    hide ToUpper;
    hide Spelled;
    MeaningOf([Spelled(UNLINK), key], UNLINK, now);
  }

  /** How many tokens a command cannot do without. */
  function Fixed(c: Command): nat
    requires Askable(c)
  {
    match c
    case OnList(_, op) => if op.LPush? || op.RPush? || op.LSet? || op.LRem? then 3 else |TokensOf(c)|
    case OnHash(_, op) => if op.HMSet? then 4 else |TokensOf(c)|
    case _ => |TokensOf(c)|
  }

  function NameOfCommand(c: Command): Name
    requires Askable(c)
  {
    match c
    case Ping => PING
    case Echo(_) => ECHO
    case FlushAll => FLUSHALL
    case Set(_, _) => SET
    case Get(_) => GET
    case Keys => KEYS
    case Type(_) => TYPE
    case Del(_) => DEL
    case Expire(_, _, _) => EXPIRE
    case Rename(_, _) => RENAME
    case OnList(_, op) => (
      match op
      case LSet(_, _) => LSET
      case LGet => LGET
      case LLen => LLEN
      case LPush(_) => LPUSH
      case RPush(_) => RPUSH
      case LPop => LPOP
      case RPop => RPOP
      case LRem(_, _) => LREM
      case LIndex(_) => LINDEX)
    case OnHash(_, op) => (
      match op
      case HSet(_, _) => HSET
      case HGet(_) => HGET
      case HExists(_) => HEXISTS
      case HDel(_) => HDEL
      case HLen => HLEN
      case HKeys => HKEYS
      case HVals => HVALS
      case HGetAll => HGETALL
      case HMSet(_) => HMSET)
  }

  /** With any of those missing the answer is the usage line of the command. */
  lemma TooFewTokens(c: Command, n: nat, now: int)
    requires Askable(c) && 1 <= n < Fixed(c) && n <= |TokensOf(c)|
    ensures InDomain(TokensOf(c)[..n])
    ensures Interpret(TokensOf(c)[..n], now) == Usage(NameOfCommand(c), ToUpper(Spelled(NameOfCommand(c))))
  {
    hide Stoi;
    hide ToUpper;
    hide Spelled;
    hide Interpret;
    hide InDomain;
    hide Arguments;
    FixedIsMinimum(c);
    hide Fixed;
    hide MinTokens;
    hide TokensOf;
    hide NameOfCommand;
    MeaningOf(TokensOf(c)[..n], NameOfCommand(c), now);
  }

  lemma FixedIsMinimum(c: Command)
    requires Askable(c)
    ensures MinTokens(NameOfCommand(c)) == Fixed(c) <= 4 && TokensOf(c) != []
    ensures TokensOf(c)[0] == Spelled(NameOfCommand(c))
    ensures NameOfCommand(c) == LSET || NameOfCommand(c) == LREM ==> Fixed(c) == 3
  {
    hide Spelled;
    hide NumberText;
  }

  /** Tokens after the last one a command takes change nothing; pushes and HMSET take all there are. */
  lemma ExtraTokens(c: Command, extra: seq<string>, now: int)
    requires Askable(c) && (c.Expire? ==> c.now == now)
    requires c.OnList? ==> !c.listOp.LPush? && !c.listOp.RPush?
    requires c.OnHash? ==> !c.hashOp.HMSet?
    ensures var ts := TokensOf(c) + extra; InDomain(ts) && Interpret(ts, now) == c
  {
    hide Stoi;
    hide NameOf;
    hide ToUpper;
    hide Spelled;
    hide NumberText;
    hide Interpret;
    hide InDomain;
    assert TokensOf(c)[0] == Spelled(NameOfCommand(c));
    if c.OnList? {
      match c.listOp
      case LSet(index, _) => NumberRead(index);
      case LRem(count, _) => NumberRead(count);
      case LIndex(index) => NumberRead(index);
      case _ =>
    }
    MeaningOf(TokensOf(c) + extra, NameOfCommand(c), now);
  }

  /** Where a number is wanted and none can be read, stoi's exception ends the request. */
  lemma NoNumberNoCommand(key: string, text: string, value: string, now: int)
    requires Stoi(text) == None
    ensures forall ts :: ts in [[Spelled(LSET), key, text, value], [Spelled(LREM), key, text, value],
                                [Spelled(LINDEX), key, text]] ==>
      InDomain(ts) && Interpret(ts, now) == NotANumber
  {
    hide Stoi;
    hide NameOf;
    hide ToUpper;
    hide Spelled;
    hide Interpret;
    hide InDomain;
    MeaningOf([Spelled(LSET), key, text, value], LSET, now);
    MeaningOf([Spelled(LREM), key, text, value], LREM, now);
    MeaningOf([Spelled(LINDEX), key, text], LINDEX, now);
  }

  /** What a user is shown for a name that is no command. */
  lemma UnknownShown(db: Db, name: string, args: seq<string>, now: int, bytes: string)
    requires NameOf(ToUpper(name)).None? && FindCrlf(ToUpper(name), 0) == None && |name| <= 4000
    requires InDomain([name] + args) && Apply(db, Interpret([name] + args, now)).Done?
    requires Renders(Apply(db, Interpret([name] + args, now)).reply, bytes)
    ensures Apply(db, Interpret([name] + args, now)).db == db
    ensures ClientShows(bytes) == Text("ERROR: " + UnknownText(ToUpper(name)))
  {
    hide NameOf;
    hide ToUpper;
    hide UnknownText;
    UnknownAnswered(db, [name] + args, now);
    UnknownLine(ToUpper(name));
  }

  function UnknownText(cmd: string): string {
    "Error: Unknown command '" + cmd + "'"
  }

  lemma UnknownAnswered(db: Db, tokens: seq<string>, now: int)
    requires tokens != [] && InDomain(tokens) && NameOf(ToUpper(tokens[0])).None?
    ensures Apply(db, Interpret(tokens, now)) == Done(db, Failure(UnknownText(ToUpper(tokens[0])) + CRLF), [false])
  {
    hide NameOf;
    hide ToUpper;
    var cmd := ToUpper(tokens[0]);
    assert "Error: Unknown command '" + cmd + "'\r\n" == UnknownText(cmd) + CRLF;
  }

  lemma UnknownLine(cmd: string)
    requires FindCrlf(cmd, 0) == None && |cmd| <= 4000
    ensures ClientShows("-" + (UnknownText(cmd) + CRLF)) == Text("ERROR: " + UnknownText(cmd))
  {
    hide Decode;
    var text := UnknownText(cmd);
    FailureDecodes(text + CRLF);
    NoCrlfInside(cmd);
    FindInTerminated(text, 0);
    assert (text + CRLF)[..|text|] == text;
  }

  lemma NoCrlfInside(cmd: string)
    requires FindCrlf(cmd, 0) == None
    ensures FindCrlf(UnknownText(cmd), 0) == None
  {
    var front := "Error: Unknown command '";
    var text := front + cmd + "'";
    NoneFound(cmd, 0);
    forall j | 0 <= j < |text|
      ensures !CrlfAt(text, j)
    {
      if j < |front| {
        assert text[j] == front[j];
      } else if j + 1 < |front| + |cmd| {
        assert text[j] == cmd[j - |front|] && text[j + 1] == cmd[j + 1 - |front|];
        assert !CrlfAt(cmd, j - |front|);
      }
    }
    CrlfMissing(text, 0, |text|);
  }

  lemma {:induction false} NoneFound(s: string, from: nat)
    requires FindCrlf(s, from) == None
    ensures forall j :: from <= j < |s| ==> !CrlfAt(s, j)
    decreases |s| - from
  {
    if |s| < from + 2 {
    } else {
      NoneFound(s, from + 1);
    }
  }

  /** A request without tokens changes nothing and is answered with this line. */
  lemma EmptyRequest(db: Db, line: string, now: int)
    requires ParseRequest(line) == Tokens([])
    ensures Answerable(line) && Handle(db, line, now).Done? && Handle(db, line, now).db == db
    ensures Handle(db, line, now).marks == []
    ensures forall bytes :: Renders(Handle(db, line, now).reply, bytes) <==> bytes == EMPTY_COMMAND_TEXT
  {
    hide ParseRequest;
    assert "Error: Empty command\r\n" == "Error: Empty command" + CRLF;
  }

  // ---------------------------------------------------------------- on the wire

  /** A command sent over the wire is that command. */
  lemma CommandOverWire(db: Db, c: Command, now: int)
    requires Askable(c) && (c.Expire? ==> c.now == now)
    ensures Sendable(TokensOf(c)) ==>
      Answerable(OnTheWire(TokensOf(c))) && Handle(db, OnTheWire(TokensOf(c)), now) == Apply(db, c)
  {
    hide Apply;
    hide Interpret;
    hide Handle;
    hide OnTheWire;
    TokensMean(c, now);
    if Sendable(TokensOf(c)) {
      WireIsParsed(db, TokensOf(c), now);
    }
  }

  function GetReply(db: Db, key: string): Reply {
    if key in db.kv then Value(db.kv[key]) else Nil
  }

  /** RENAME a b over the wire: GET b then answers what GET a answered before it, if that was a value, and GET a
      answers nothing any more. */
  lemma RenameOverWire(db: Db, a: string, b: string, clock: seq<int>)
    requires |clock| == 4 && a != b
    requires Sendable(TokensOf(Get(a))) && Sendable(TokensOf(Get(b))) && Sendable(TokensOf(Rename(a, b)))
    ensures var lines := [OnTheWire(TokensOf(Get(a))), OnTheWire(TokensOf(Rename(a, b))),
                          OnTheWire(TokensOf(Get(b))), OnTheWire(TokensOf(Get(a)))];
      && (forall i :: 0 <= i < 4 ==> Answerable(lines[i]))
      && var r := Converse(db, lines, clock);
        && r.Ran? && |r.replies| == 4 && r.replies[0] == GetReply(db, a) && r.replies[1] == Simple("OK")
        && (r.replies[0] != Nil ==> r.replies[2] == r.replies[0])
        && (r.replies[0] == Nil ==> r.replies[2] == GetReply(db, b))
        && r.replies[3] == Nil
  {
    hide Handle;
    hide OnTheWire;
    hide TokensOf;
    hide Answerable;
    hide Sendable;
    hide Converse;
    hide Renamed;
    var db' := Renamed(db, a, b);
    RenamedStrings(db, a, b);
    CommandOverWire(db, Get(a), clock[0]);
    CommandOverWire(db, Rename(a, b), clock[1]);
    CommandOverWire(db', Get(b), clock[2]);
    CommandOverWire(db', Get(a), clock[3]);
    var lines := [OnTheWire(TokensOf(Get(a))), OnTheWire(TokensOf(Rename(a, b))),
                  OnTheWire(TokensOf(Get(b))), OnTheWire(TokensOf(Get(a)))];
    FourAnswers(db, db', lines, clock, Apply(db, Get(a)).reply, Simple("OK"), Apply(db', Get(b)).reply,
                Apply(db', Get(a)).reply);
  }

  lemma RenamedStrings(db: Db, a: string, b: string)
    requires a != b
    ensures var db' := Renamed(db, a, b);
      && GetReply(db', a) == Nil
      && GetReply(db', b) == (if a in db.kv then GetReply(db, a) else GetReply(db, b))
  {
  }

  predicate AnswersSo(db: Db, line: string, now: int, db': Db, reply: Reply)
    requires Answerable(line)
  {
    Handle(db, line, now).Done? && Handle(db, line, now).db == db' && Handle(db, line, now).reply == reply
  }

  lemma FourAnswers(db: Db, db': Db, lines: seq<string>, clock: seq<int>, r0: Reply, r1: Reply, r2: Reply, r3: Reply)
    requires |lines| == |clock| == 4
    ensures (forall i :: 0 <= i < 4 ==> Answerable(lines[i]))
      && AnswersSo(db, lines[0], clock[0], db, r0) && AnswersSo(db, lines[1], clock[1], db', r1)
      && AnswersSo(db', lines[2], clock[2], db', r2) && AnswersSo(db', lines[3], clock[3], db', r3)
      ==> Converse(db, lines, clock) == Ran(db', [r0, r1, r2, r3])
  {
    hide Handle;
    hide Answerable;
    if forall i :: 0 <= i < 4 ==> Answerable(lines[i]) {
      if && AnswersSo(db, lines[0], clock[0], db, r0) && AnswersSo(db, lines[1], clock[1], db', r1)
         && AnswersSo(db', lines[2], clock[2], db', r2) && AnswersSo(db', lines[3], clock[3], db', r3) {
        assert Converse(db', lines[2..][1..][1..], clock[2..][1..][1..]) == Ran(db', []);
        assert Converse(db', lines[2..][1..], clock[2..][1..]) == Ran(db', [r3]);
        assert Converse(db', lines[2..], clock[2..]) == Ran(db', [r2, r3]);
        assert lines[1..][1..] == lines[2..] && clock[1..][1..] == clock[2..];
        assert Converse(db, lines[1..], clock[1..]) == Ran(db', [r1, r2, r3]);
      }
    }
  }
}
