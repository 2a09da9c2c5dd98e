/** The dispatcher: one request in, one reply out, with the database and the metrics edited on the way. */
module CommandHandlers {
  import opened Bytes
  import opened Decimal
  import opened Store
  import opened Databases
  import opened RequestCodec
  import opened Commands
  import opened MetricsModel
  import L = Lists

  /** The bytes sent back, or the exception that ends the process. */
  datatype Response = Sent(bytes: string) | Thrown

  /** The counters after one request; one without a command name leaves them alone. */
  function Charged(t: Tally, name: Option<string>, marks: seq<bool>, duration: real): Tally {
    if name.None? then t else Observe(CountAll(t, name.value, marks), name.value, duration)
  }

  /** The command name a request is counted under; None when there is no token. */
  function CountedName(line: string): Option<string> {
    match ParseRequest(line)
    case Tokens(tokens) => if tokens == [] then None else Some(ToUpper(tokens[0]))
    case _ => None
  }

  // --------------------------------------------------------- writing a reply

  method BulkReply(value: string) returns (response: string)
    ensures response == Bulk(value)
  {
    JoinBulk("", value);
    response := "" + "$" + ToDecimal(|value|) + CRLF + (value + CRLF);
    assert "" + Bulk(value) == Bulk(value);
  }

  method ValueReply(value: string) returns (response: string)
    ensures Renders(ValueOrNil(value), response)
  {
    if value == "" {
      response := "$-1\r\n";
    } else {
      response := BulkReply(value);
    }
  }

  method ArrayReply(items: seq<string>) returns (response: string)
    ensures response == ArrayText(|items|, items)
  {
    response := "*" + ToDecimal(|items|) + CRLF;
    ghost var head := response;
    for i := 0 to |items|
      invariant response == head + Bulks(items[..i])
    {
      var bulk := BulkReply(items[i]);
      BulksSnoc(items, i);
      Associates(head, Bulks(items[..i]), Bulk(items[i]));
      response := response + bulk;
    }
    assert items[..|items|] == items;
  }

  /** The HGETALL loop: the header counts the fields, two strings follow for each. */
  method PairsReply(all: Fields) returns (response: string)
    ensures Renders(FieldPairs(all), response)
  {
    response := "*" + ToDecimal(|all|) + CRLF;
    ghost var head := response;
    var order := WalkKeys(all);
    for i := 0 to |order|
      invariant forall f :: f in order[..i] ==> f in all
      invariant response == head + Bulks(Flattened(all, order[..i]))
    {
      assert order[i] in all.Keys;
      var field := BulkReply(order[i]);
      var value := BulkReply(all[order[i]]);
      PairBulks(all, order, i);
      Associates(head, Bulks(Flattened(all, order[..i])), Bulk(order[i]) + Bulk(all[order[i]]));
      response := response + (field + value);
    }
    assert order[..|order|] == order;
    assert response == ArrayText(|all|, Flattened(all, order));
  }

  lemma PairBulks(all: Fields, order: seq<string>, i: nat)
    requires i < |order| && order[i] in all && forall f :: f in order[..i] ==> f in all
    ensures forall f :: f in order[..i + 1] ==> f in all
    ensures Bulks(Flattened(all, order[..i + 1]))
         == Bulks(Flattened(all, order[..i])) + (Bulk(order[i]) + Bulk(all[order[i]]))
  {
    var f, v := order[i], all[order[i]];
    assert order[..i + 1][..i] == order[..i];
    BulksAppend(Flattened(all, order[..i]), [f, v]);
    TwoBulks(f, v);
  }

  // ------------------------------------------------------------- the handler

  class CommandHandler {
    const db: Database
    const metrics: Metrics

    ghost predicate Valid()
      reads this, metrics, metrics.parts
    {
      metrics.Valid() && db !in metrics.parts && this !in metrics.parts
    }

    constructor (db: Database, metrics: Metrics)
      requires metrics.Valid() && db !in metrics.parts
      ensures this.db == db && this.metrics == metrics && Valid()
    {
      this.db := db;
      this.metrics := metrics;
    }

    /** What a branch of the dispatcher owes: the state, the reply and the increments of the outcome. */
    twostate predicate Answered(o: Outcome, r: Response, marks: seq<bool>)
      reads db
    {
      match o
      case Throws => r.Thrown? && db.State() == old(db.State())
      case Done(db', reply, m) => r.Sent? && Renders(reply, r.bytes) && db.State() == db' && marks == m
    }

    method ListPositionCommand(key: string, op: ListOp) returns (r: Response, marks: seq<bool>)
      requires op.LSet? || op.LRem? || op.LIndex?
      modifies db
      ensures Answered(ApplyList(old(db.State()), key, op), r, marks)
    {
      hide L.Remove;
      hide Bulk;
      hide ToDecimal;
      marks := [true];
      match op {
        case LSet(index, value) =>
          var ok := db.LSet(key, index, value);
          if ok {
            r := Sent("+" + "OK" + CRLF);
          } else {
            r, marks := Sent("-" + "Error: Index out of range\r\n"), [false];
          }
        case LRem(count, value) =>
          var removed := db.LRem(key, count, value);
          r := Sent(":" + ToDecimal(removed) + CRLF);
        case LIndex(index) =>
          var value := db.LIndex(key, index);
          if value == "" {
            r, marks := Sent(INDEX_MISS_TEXT), [false, true];
          } else {
            var bulk := BulkReply(value);
            r := Sent(bulk);
          }
      }
    }

    method ListCommand(key: string, op: ListOp) returns (r: Response, marks: seq<bool>)
      modifies db
      ensures Answered(ApplyList(old(db.State()), key, op), r, marks)
    {
      hide L.Remove;
      hide L.Reverse;
      hide ArrayText;
      hide Bulk;
      hide ToDecimal;
      marks := [true];
      match op {
        case LGet =>
          var list := db.LGet(key);
          var items := ArrayReply(list);
          r := Sent(items);
        case LLen =>
          var length := db.LLen(key);
          r := Sent(":" + ToDecimal(length) + CRLF);
        case LPush(values) =>
          var size := db.LPush(key, values);
          r := Sent(":" + ToDecimal(size) + CRLF);
        case RPush(values) =>
          var size := db.RPush(key, values);
          r := Sent(":" + ToDecimal(size) + CRLF);
        case LPop =>
          var value := db.LPop(key);
          var answer := ValueReply(value);
          r := Sent(answer);
        case RPop =>
          var value := db.RPop(key);
          var answer := ValueReply(value);
          r := Sent(answer);
        case _ =>
          r, marks := ListPositionCommand(key, op);
      }
    }

    method WholeHashCommand(key: string, op: HashOp) returns (r: Response, marks: seq<bool>)
      requires op.HLen? || op.HKeys? || op.HVals? || op.HGetAll?
      modifies db
      ensures Answered(ApplyHash(old(db.State()), key, op), r, marks)
    {
      hide ArrayText;
      hide ToDecimal;
      ghost var hash := HashAt(db.State(), key);
      marks := [true];
      match op {
        case HLen =>
          var length := db.HLen(key);
          r := Sent(":" + ToDecimal(length) + CRLF);
        case HKeys =>
          var fields := db.HKeys(key);
          EnumerationSize(fields, hash.Keys);
          var names := ArrayReply(fields);
          r := Sent(names);
        case HVals =>
          var values := db.HVals(key);
          ghost var fields :| Enumerates(fields, hash.Keys) && values == ValuesOf(hash, fields);
          EnumerationSize(fields, hash.Keys);
          ValuesLength(hash, fields);
          var items := ArrayReply(values);
          r := Sent(items);
        case HGetAll =>
          var all := db.HGetAll(key);
          var pairs := PairsReply(all);
          r := Sent(pairs);
      }
    }

    method HashCommand(key: string, op: HashOp) returns (r: Response, marks: seq<bool>)
      modifies db
      ensures Answered(ApplyHash(old(db.State()), key, op), r, marks)
    {
      hide SetAll;
      hide ArrayText;
      hide Bulk;
      hide ToDecimal;
      marks := [true];
      match op {
        case HSet(field, value) =>
          var added := db.HSet(key, field, value);
          r := Sent(":" + ToDecimal(if added then 1 else 0) + CRLF);
        case HGet(field) =>
          var value := db.HGet(key, field);
          var answer := ValueReply(value);
          r := Sent(answer);
        case HExists(field) =>
          var found := db.HExists(key, field);
          r := Sent(":" + ToDecimal(if found then 1 else 0) + CRLF);
        case HDel(field) =>
          var deleted := db.HDel(key, field);
          r := Sent(":" + ToDecimal(if deleted then 1 else 0) + CRLF);
        case HMSet(pairs) =>
          SetPairs(key, pairs);
          r := Sent("+" + "OK" + CRLF);
        case _ =>
          r, marks := WholeHashCommand(key, op);
      }
    }

    /** The HMSET loop. */
    method SetPairs(key: string, pairs: seq<(string, string)>)
      modifies db`hashStore
      ensures var start := old(db.State());
        db.State() == if pairs == [] && key !in start.hashes then start
                      else PutHash(start, key, SetAll(HashAt(start, key), pairs))
    {
      ghost var start := db.State();
      ghost var hash := HashAt(start, key);
      for i := 0 to |pairs|
        invariant db.State() == if i == 0 then start else PutHash(start, key, SetAll(hash, pairs[..i]))
        invariant HashAt(db.State(), key) == SetAll(hash, pairs[..i])
      {
        ghost var before := db.State();
        assert pairs[..i + 1][..i] == pairs[..i];
        var added := db.HSet(key, pairs[i].0, pairs[i].1);
        PutTwice(start, key, HashAt(before, key), HashAt(db.State(), key));
      }
      assert pairs[..|pairs|] == pairs;
      assert key in start.hashes ==> start.hashes[key := hash] == start.hashes;
    }

    method KeyCommand(c: Command) returns (r: Response, marks: seq<bool>)
      requires c.Get? || c.Keys? || c.Type? || c.Del? || c.Expire? || c.Rename?
      modifies db
      ensures Answered(Apply(old(db.State()), c), r, marks)
    {
      hide Bulk;
      hide ToDecimal;
      hide Stoll;
      hide ArrayText;
      hide Renamed;
      hide Deleted;
      hide TypeName;
      hide ApplyList;
      hide ApplyHash;
      hide UsageText;
      marks := [true];
      match c {
        case Get(key) =>
          var value := db.Get(key);
          if value.Some? {
            var bulk := BulkReply(value.value);
            r := Sent(bulk);
          } else {
            r := Sent("$-1\r\n");
          }
        case Keys =>
          var allKeys := db.Keys();
          ghost var s, l :| Enumerates(s, db.kvStore.Keys) && Enumerates(l, db.listStore.Keys) && allKeys == s + l + s;
          var listing := ArrayReply(allKeys);
          r := Sent(listing);
          assert Renders(KeyListing(db.kvStore.Keys, db.listStore.Keys), listing);
        case Type(key) =>
          var type' := db.Type(key);
          r := Sent("+" + type' + CRLF);
        case Del(key) =>
          var res := db.Del(key);
          r := Sent(":" + ToDecimal(if res then 1 else 0) + CRLF);
        case Expire(key, seconds, now) =>
          var exist := db.Expire(key, seconds, now);
          if exist == None {
            return Thrown, [];
          }
          if exist.value {
            r := Sent("+" + "OK" + CRLF);
          } else {
            r := Sent("$-1\r\n");
          }
        case Rename(oldKey, newKey) =>
          var found := db.Rename(oldKey, newKey);
          r := Sent("+" + "OK" + CRLF);
      }
    }

    /** The branch of one command: its data operation and its reply. */
    method Execute(c: Command) returns (r: Response, marks: seq<bool>)
      modifies db
      ensures Answered(Apply(old(db.State()), c), r, marks)
    {
      hide Bulk;
      hide ToDecimal;
      hide Stoll;
      hide UsageText;
      hide ApplyList;
      hide ApplyHash;
      marks := [true];
      match c {
        case Ping =>
          r := Sent("+" + "PONG" + CRLF);
        case Echo(message) =>
          r := Sent("+" + message + CRLF);
        case FlushAll =>
          db.FlushAll();
          r, marks := Sent("+" + "OK" + CRLF), [];
        case Set(key, value) =>
          db.Set(key, value);
          r := Sent("+" + "OK" + CRLF);
        case OnList(key, op) =>
          r, marks := ListCommand(key, op);
        case OnHash(key, op) =>
          r, marks := HashCommand(key, op);
        case Usage(name, cmd) =>
          r, marks := Sent("-" + UsageText(name, cmd)), [false];
        case Unknown(cmd) =>
          r, marks := Sent("-" + ("Error: Unknown command '" + cmd + "'\r\n")), [false];
        case NotANumber =>
          return Thrown, [];
        case _ =>
          r, marks := KeyCommand(c);
      }
    }

    /** The counter increments of one branch, in order. */
    method CountMarked(cmd: string, marks: seq<bool>)
      requires Valid()
      modifies metrics`totalSuccessCommands, metrics`totalFailureCommands,
               metrics`readCommandsTotal, metrics`writeCommandsTotal
      ensures Valid() && metrics.Totals() == CountAll(old(metrics.Totals()), cmd, marks)
    {
      hide Count;
      for i := 0 to |marks|
        invariant Valid()
        invariant CountAll(metrics.Totals(), cmd, marks[i..]) == CountAll(old(metrics.Totals()), cmd, marks)
      {
        assert marks[i..][1..] == marks[i + 1..];
        if marks[i] {
          metrics.IncrementSuccessfulCommand(cmd);
        } else {
          metrics.IncrementFailureCommand(cmd);
        }
      }
    }

    /** One request: parse, dispatch, reply, count and time it. `now` and `duration` are what the clock says.
        A request without tokens is answered but neither counted nor timed. */
    method ProcessCommand(commandLine: string, now: int, duration: real) returns (r: Response)
      requires Valid() && Answerable(commandLine)
      modifies db, metrics, metrics.parts
      ensures Valid() && fresh(metrics.parts - old(metrics.parts))
      ensures match Handle(old(db.State()), commandLine, now)
              case Throws =>
                r.Thrown? && db.State() == old(db.State()) && metrics.Totals() == old(metrics.Totals())
              case Done(db', reply, marks) =>
                && r.Sent? && Renders(reply, r.bytes) && db.State() == db'
                && metrics.Totals() == Charged(old(metrics.Totals()), CountedName(commandLine), marks, duration)
      ensures metrics.clients == old(metrics.clients)
    {
      hide ParseRequest;
      hide Apply;
      hide Interpret;
      hide Renders;
      hide ToUpper;
      hide CountAll;
      hide Observe;
      hide InDomain;
      var parsed := ParseRespCommand(commandLine);
      if !parsed.Tokens? {
        return Thrown;
      }
      var tokens := parsed.tokens;
      if tokens == [] {
        EmptyCommandReply();
        return Sent("-" + "Error: Empty command\r\n");
      }
      var cmd := ToUpper(tokens[0]);
      var marks;
      r, marks := Execute(Interpret(tokens, now));
      if r.Thrown? {
        return;
      }
      CountMarked(cmd, marks);
      metrics.RecordCommandLatency(cmd, duration);
    }
  }

  lemma EmptyCommandReply()
    ensures Renders(Failure("Error: Empty command\r\n"), "-" + "Error: Empty command\r\n")
  {
  }

  lemma PutTwice(db: Db, key: string, first: Fields, second: Fields)
    ensures PutHash(PutHash(db, key, first), key, second) == PutHash(db, key, second)
  {
    assert db.hashes[key := first][key := second] == db.hashes[key := second];
  }
}
