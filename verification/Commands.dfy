/** What one request means: from tokens to a command, from a command to a new state and a reply. */
module Commands {
  import opened Bytes
  import opened Decimal
  import opened Store
  import opened Databases
  import opened RequestCodec
  import L = Lists

  /** The command names the dispatcher knows. */
  datatype Name =
    | PING | ECHO | FLUSHALL | SET | GET | KEYS | TYPE | DEL | UNLINK | EXPIRE | RENAME
    | LSET | LGET | LLEN | LPUSH | RPUSH | LPOP | RPOP | LREM | LINDEX
    | HSET | HGET | HEXISTS | HDEL | HLEN | HKEYS | HVALS | HGETALL | HMSET

  /** The dispatcher's chain of comparisons. */
  function NameOf(cmd: string): Option<Name> {
    if cmd == "PING" then Some(PING)
    else if cmd == "ECHO" then Some(ECHO)
    else if cmd == "FLUSHALL" then Some(FLUSHALL)
    else if cmd == "SET" then Some(SET)
    else if cmd == "GET" then Some(GET)
    else if cmd == "KEYS" then Some(KEYS)
    else if cmd == "TYPE" then Some(TYPE)
    else if cmd == "DEL" then Some(DEL)
    else if cmd == "UNLINK" then Some(UNLINK)
    else if cmd == "EXPIRE" then Some(EXPIRE)
    else if cmd == "RENAME" then Some(RENAME)
    else if cmd == "LSET" then Some(LSET)
    else if cmd == "LGET" then Some(LGET)
    else if cmd == "LLEN" then Some(LLEN)
    else if cmd == "LPUSH" then Some(LPUSH)
    else if cmd == "RPUSH" then Some(RPUSH)
    else if cmd == "LPOP" then Some(LPOP)
    else if cmd == "RPOP" then Some(RPOP)
    else if cmd == "LREM" then Some(LREM)
    else if cmd == "LINDEX" then Some(LINDEX)
    else if cmd == "HSET" then Some(HSET)
    else if cmd == "HGET" then Some(HGET)
    else if cmd == "HEXISTS" then Some(HEXISTS)
    else if cmd == "HDEL" then Some(HDEL)
    else if cmd == "HLEN" then Some(HLEN)
    else if cmd == "HKEYS" then Some(HKEYS)
    else if cmd == "HVALS" then Some(HVALS)
    else if cmd == "HGETALL" then Some(HGETALL)
    else if cmd == "HMSET" then Some(HMSET)
    else None
  }

  /** The `tokens.size() < n` test of each branch. */
  function MinTokens(name: Name): nat {
    match name
    case PING | FLUSHALL | KEYS => 1
    case ECHO | GET | TYPE | DEL | UNLINK => 2
    case LGET | LLEN | LPOP | RPOP | HLEN | HKEYS | HVALS | HGETALL => 2
    case SET | EXPIRE | RENAME | LSET | LPUSH | RPUSH | LREM | LINDEX | HGET | HEXISTS | HDEL => 3
    case HSET | HMSET => 4
  }

  /** The message of a request with too few tokens, after its minus sign; not every one ends in CRLF. */
  function UsageText(name: Name, cmd: string): string {
    match name
    case ECHO => "Error: ECHO requires a messag\r\n"
    case SET => "Error: SET requires key and value\r\n"
    case GET => "Error: GET requires key\r\n"
    case TYPE => "Error: TYPE requires key\r\n"
    case DEL | UNLINK => "Error: " + cmd + "requires key" + "\r\n"
    case EXPIRE => "Error: EXPIRE requires key and time in seconds\r\n"
    case RENAME => "Error: RENAME requires old key name and new key name\r\n"
    case LSET => "Error: LSET requires key, position index and a value to set"
    case LGET => "Error: LGET requires a list name (key)"
    case LLEN => "Error: LLEN requires a list name (key)"
    case LPUSH => "Error: LPUSH requires key, and a value"
    case RPUSH => "Error: RPUSH requires key, and a value"
    case LPOP => "Error: LPOP requires the list name (key)"
    case RPOP => "Error: RPOP requires the list name (key)"
    case LREM => "Error: LREM requires key, count and a value to be removed."
    case LINDEX => "Error: LINDEX requires key and an elemnent position"
    case HSET => "Error: HSET requires key, field and value"
    case HGET => "Error: HGET requires key and field"
    case HEXISTS => "Error: HEXISTS requires key and field"
    case HDEL => "Error: HDEL requires key and field"
    case HLEN => "Error: HLEN requires key"
    case HKEYS => "Error: HKEYS requires a key"
    case HVALS => "Error: HVALS requires a key"
    case HGETALL => "Error: HGETALL requires a key"
    case HMSET => "Error: HMSET requires a minimum of key, field and value"
    case PING | FLUSHALL | KEYS => ""
  }

  datatype ListOp =
    | LSet(index: int, value: string)
    | LGet
    | LLen
    | LPush(values: seq<string>)
    | RPush(values: seq<string>)
    | LPop
    | RPop
    | LRem(count: int, value: string)
    | LIndex(index: int)

  datatype HashOp =
    | HSet(field: string, value: string)
    | HGet(field: string)
    | HExists(field: string)
    | HDel(field: string)
    | HLen
    | HKeys
    | HVals
    | HGetAll
    | HMSet(pairs: seq<(string, string)>)

  datatype Command =
    | Ping
    | Echo(message: string)
    | FlushAll
    | Set(key: string, value: string)
    | Get(key: string)
    | Keys
    | Type(key: string)
    | Del(key: string)
    | Expire(key: string, seconds: string, now: int)
    | Rename(oldKey: string, newKey: string)
    | OnList(key: string, listOp: ListOp)
    | OnHash(key: string, hashOp: HashOp)
    | Usage(name: Name, cmd: string)
    | Unknown(cmd: string)
    | NotANumber

  /** Requests on which the code reads past the tokens, or negates the smallest int. */
  predicate InDomain(tokens: seq<string>)
    requires tokens != []
  {
    var name := NameOf(ToUpper(tokens[0]));
    name.Some? ==> NamedInDomain(name.value, tokens)
  }

  /** tokens[i], tokens[i + 1] for i = 2, 4, ... */
  function PairsOf(tokens: seq<string>): seq<(string, string)>
    requires |tokens| % 2 == 0
  {
    if |tokens| < 4 then []
    else PairsOf(tokens[..|tokens| - 2]) + [(tokens[|tokens| - 2], tokens[|tokens| - 1])]
  }

  function Interpret(tokens: seq<string>, now: int): Command
    requires tokens != [] && InDomain(tokens)
  {
    var cmd := ToUpper(tokens[0]);
    match NameOf(cmd)
    case None => Unknown(cmd)
    case Some(name) => Meaning(name, cmd, tokens, now)
  }

  predicate NamedInDomain(name: Name, tokens: seq<string>) {
    match name
    case LSET => |tokens| != 3
    case LREM => |tokens| != 3 && (|tokens| > 3 ==> Stoi(tokens[2]) != Some(INT_MIN))
    case HMSET => |tokens| < 4 || |tokens| % 2 == 0
    case _ => true
  }

  function Meaning(name: Name, cmd: string, tokens: seq<string>, now: int): Command
    requires NamedInDomain(name, tokens)
  {
    if |tokens| < MinTokens(name) then Usage(name, cmd) else Arguments(name, tokens, now)
  }

  function Arguments(name: Name, tokens: seq<string>, now: int): Command
    requires |tokens| >= MinTokens(name)
    requires NamedInDomain(name, tokens)
  {
    match name
    case PING => Ping
    case ECHO => Echo(tokens[1])
    case FLUSHALL => FlushAll
    case SET => Set(tokens[1], tokens[2])
    case GET => Get(tokens[1])
    case KEYS => Keys
    case TYPE => Type(tokens[1])
    case DEL | UNLINK => Del(tokens[1])
    case EXPIRE => Expire(tokens[1], tokens[2], now)
    case RENAME => Rename(tokens[1], tokens[2])
    case LSET =>
      if Stoi(tokens[2]).None? then NotANumber
      else OnList(tokens[1], LSet(Stoi(tokens[2]).value, tokens[3]))
    case LGET => OnList(tokens[1], LGet)
    case LLEN => OnList(tokens[1], LLen)
    case LPUSH => OnList(tokens[1], LPush(tokens[2..]))
    case RPUSH => OnList(tokens[1], RPush(tokens[2..]))
    case LPOP => OnList(tokens[1], LPop)
    case RPOP => OnList(tokens[1], RPop)
    case LREM =>
      if Stoi(tokens[2]).None? then NotANumber
      else OnList(tokens[1], LRem(Stoi(tokens[2]).value, tokens[3]))
    case LINDEX =>
      if Stoi(tokens[2]).None? then NotANumber else OnList(tokens[1], LIndex(Stoi(tokens[2]).value))
    case HSET => OnHash(tokens[1], HSet(tokens[2], tokens[3]))
    case HGET => OnHash(tokens[1], HGet(tokens[2]))
    case HEXISTS => OnHash(tokens[1], HExists(tokens[2]))
    case HDEL => OnHash(tokens[1], HDel(tokens[2]))
    case HLEN => OnHash(tokens[1], HLen)
    case HKEYS => OnHash(tokens[1], HKeys)
    case HVALS => OnHash(tokens[1], HVals)
    case HGETALL => OnHash(tokens[1], HGetAll)
    case HMSET => OnHash(tokens[1], HMSet(PairsOf(tokens)))
  }

  // ------------------------------------------------------------------ replies

  /** A reply up to the order in which a hash or the key table is walked. */
  datatype Reply =
    | Simple(text: string)
    | Failure(text: string)
    | Number(n: nat)
    | Value(value: string)
    | Nil
    | IndexMiss
    | Items(items: seq<string>)
    | FieldNames(hash: Fields)
    | FieldValues(hash: Fields)
    | FieldPairs(hash: Fields)
    | KeyListing(strings: set<string>, lists: set<string>)

  function ArrayText(n: nat, items: seq<string>): string {
    Header('*', n) + Bulks(items)
  }

  /** field, value, field, value, ... */
  function Flattened(hash: Fields, fields: seq<string>): seq<string>
    requires forall f :: f in fields ==> f in hash
  {
    if fields == [] then []
    else Flattened(hash, fields[..|fields| - 1]) + [fields[|fields| - 1], hash[fields[|fields| - 1]]]
  }

  lemma {:induction false} FlattenedLength(hash: Fields, order: seq<string>)
    requires forall f :: f in order ==> f in hash
    ensures |Flattened(hash, order)| == 2 * |order|
  {
    if order == [] {
    } else {
      FlattenedLength(hash, order[..|order| - 1]);
    }
  }

  const INDEX_MISS_TEXT: string := "$-Error: Index out of range\r\n"

  /** The bytes a reply may be sent as. */
  ghost predicate Renders(reply: Reply, bytes: string) {
    match reply
    case Simple(text) => bytes == "+" + text + CRLF
    case Failure(text) => bytes == "-" + text
    case Number(n) => bytes == ":" + ToDecimal(n) + CRLF
    case Value(value) => bytes == Bulk(value)
    case Nil => bytes == "$-1\r\n"
    case IndexMiss => bytes == INDEX_MISS_TEXT
    case Items(items) => bytes == ArrayText(|items|, items)
    case FieldNames(hash) => exists order :: Enumerates(order, hash.Keys) && bytes == ArrayText(|hash|, order)
    case FieldValues(hash) => exists order ::
        Enumerates(order, hash.Keys) && bytes == ArrayText(|hash|, ValuesOf(hash, order))
    case FieldPairs(hash) => exists order ::
        Enumerates(order, hash.Keys) && bytes == ArrayText(|hash|, Flattened(hash, order))
    case KeyListing(strings, lists) => exists s, l ::
        Enumerates(s, strings) && Enumerates(l, lists) && bytes == ArrayText(|s + l + s|, s + l + s)
  }

  // ---------------------------------------------------------------- execution

  /** The state after, the reply, and the success (true) and failure (false) increments in order;
      or an exception that nobody catches, so that the process ends. */
  datatype Outcome = Done(db: Db, reply: Reply, marks: seq<bool>) | Throws

  function Ok(db: Db, reply: Reply): Outcome {
    Done(db, reply, [true])
  }

  function Bad(db: Db, reply: Reply): Outcome {
    Done(db, reply, [false])
  }

  /** LPOP, RPOP and HGET answer an empty string like a missing one. */
  function ValueOrNil(value: string): Reply {
    if value == "" then Nil else Value(value)
  }

  function AsNumber(b: bool): Reply {
    Number(if b then 1 else 0)
  }

  /** A list command seen from its list: the list after, the reply and the increments. */
  datatype ListOutcome = ListOutcome(list: seq<string>, reply: Reply, marks: seq<bool>)

  function ListStep(list: seq<string>, op: ListOp): ListOutcome {
    match op
    case LSet(index, value) =>
      if 0 <= index < |list| then ListOutcome(list[index := value], Simple("OK"), [true])
      else ListOutcome(list, Failure("Error: Index out of range\r\n"), [false])
    case LGet => ListOutcome(list, Items(list), [true])
    case LLen => ListOutcome(list, Number(|list|), [true])
    case LPush(values) => ListOutcome(L.Reverse(values) + list, Number(|L.Reverse(values) + list|), [true])
    case RPush(values) => ListOutcome(list + values, Number(|list + values|), [true])
    case LPop =>
      if list == [] then ListOutcome([], Nil, [true]) else ListOutcome(list[1..], ValueOrNil(list[0]), [true])
    case RPop =>
      if list == [] then ListOutcome([], Nil, [true])
      else ListOutcome(list[..|list| - 1], ValueOrNil(list[|list| - 1]), [true])
    case LRem(count, value) =>
      var kept := L.Remove(list, count, value);
      L.RemoveIsPositional(list, count, value);
      ListOutcome(kept, Number(|list| - |kept|), [true])
    case LIndex(index) =>
      if 0 <= index < |list| && list[index] != "" then ListOutcome(list, Value(list[index]), [true])
      else ListOutcome(list, IndexMiss, [false, true])
  }

  function HashStep(hash: Fields, op: HashOp): (Fields, Reply) {
    match op
    case HSet(field, value) => (hash[field := value], AsNumber(field !in hash))
    case HGet(field) => (hash, if field in hash then ValueOrNil(hash[field]) else Nil)
    case HExists(field) => (hash, AsNumber(field in hash))
    case HDel(field) => (hash - {field}, AsNumber(field in hash))
    case HLen => (hash, Number(|hash|))
    case HKeys => (hash, FieldNames(hash))
    case HVals => (hash, FieldValues(hash))
    case HGetAll => (hash, FieldPairs(hash))
    case HMSet(pairs) => (SetAll(hash, pairs), Simple("OK"))
  }

  /** The list commands that look before they use `operator[]`. */
  predicate LeavesListMissing(op: ListOp) {
    op.LRem?
  }

  predicate LeavesHashMissing(op: HashOp) {
    op.HGet? || op.HExists? || op.HDel? || (op.HMSet? && op.pairs == [])
  }

  function ApplyList(db: Db, key: string, op: ListOp): Outcome {
    var o := ListStep(ListAt(db, key), op);
    Done(if key !in db.lists && LeavesListMissing(op) then db else PutList(db, key, o.list), o.reply, o.marks)
  }

  function ApplyHash(db: Db, key: string, op: HashOp): Outcome {
    var (hash, reply) := HashStep(HashAt(db, key), op);
    Ok(if key !in db.hashes && LeavesHashMissing(op) then db else PutHash(db, key, hash), reply)
  }

  function Apply(db: Db, c: Command): Outcome {
    match c
    case Ping => Ok(db, Simple("PONG"))
    case Echo(message) => Ok(db, Simple(message))
    case FlushAll => Done(Flushed(db), Simple("OK"), [])
    case Set(key, value) => Ok(db.(kv := db.kv[key := value]), Simple("OK"))
    case Get(key) => Ok(db, if key in db.kv then Value(db.kv[key]) else Nil)
    case Keys => Ok(db, KeyListing(db.kv.Keys, db.lists.Keys))
    case Type(key) => Ok(db, Simple(TypeName(db, key)))
    case Del(key) => Ok(Deleted(db, key), AsNumber(Holds(db, key)))
    case Expire(key, seconds, now) =>
      if !Holds(db, key) then Ok(db, Nil)
      else if Stoll(seconds).None? then Throws
      else Ok(db.(expiry := db.expiry[key := now + NANOSECONDS * Stoll(seconds).value]), Simple("OK"))
    case Rename(oldKey, newKey) => Ok(Renamed(db, oldKey, newKey), Simple("OK"))
    case OnList(key, op) => ApplyList(db, key, op)
    case OnHash(key, op) => ApplyHash(db, key, op)
    case Usage(name, cmd) => Bad(db, Failure(UsageText(name, cmd)))
    case Unknown(cmd) => Bad(db, Failure("Error: Unknown command '" + cmd + "'\r\n"))
    case NotANumber => Throws
  }

  /** Everything `processCommand` does to the data with one request; no tokens, no increments. */
  function Handle(db: Db, line: string, now: int): Outcome
    requires Answerable(line)
  {
    match ParseRequest(line)
    case BadInteger => Throws
    case BadPosition => Throws
    case Tokens(tokens) =>
      if tokens == [] then Done(db, Failure("Error: Empty command\r\n"), [])
      else Apply(db, Interpret(tokens, now))
  }

  predicate Answerable(line: string) {
    var r := ParseRequest(line);
    r.Tokens? && r.tokens != [] ==> InDomain(r.tokens)
  }
}
