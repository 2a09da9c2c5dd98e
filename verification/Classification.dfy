/** Which commands count as reads and which as writes, what that says about them, and successes and failures apart. */
module Classification {
  import opened Bytes
  import opened Store
  import opened Commands
  import opened Equivalence
  import opened MetricsModel
  import opened CommandHandlers
  import opened Sessions
  import opened Requests
  import opened RequestCodec
  import opened Decimal
  import L = Lists

  predicate IsReadName(name: string) {
    name in {"PING", "ECHO", "GET", "KEYS", "TYPE", "LGET", "LLEN", "LINDEX",
             "HGET", "HEXISTS", "HLEN", "HKEYS", "HVALS", "HGETALL"}
  }

  predicate IsWriteName(name: string) {
    name in {"FLUSHALL", "SET", "DEL", "UNLINK", "EXPIRE", "RENAME",
             "LSET", "LPUSH", "RPUSH", "LPOP", "RPOP", "LREM", "HSET", "HDEL", "HMSET"}
  }

  // ----------------------------------------------------------- reads and writes

  /** The increments of requests with such a name, along a run. */
  function IncrementsOf(named: string -> bool, db: Db, reqs: seq<Sessions.Request>): nat
    requires AllAnswerable(reqs)
    decreases |reqs|
  {
    if reqs == [] then 0
    else
      var o, name := Handle(db, reqs[0].line, reqs[0].now), CountedName(reqs[0].line);
      if o.Throws? then 0
      else (if name.Some? && named(name.value) then |o.marks| else 0) + IncrementsOf(named, o.db, reqs[1..])
  }

  lemma CountOne(t: Tally, cmd: string, success: bool)
    ensures var u := Count(t, cmd, success);
      && u.readTotal == t.readTotal + (if IsReadName(cmd) then 1 else 0)
      && u.writeTotal == t.writeTotal + (if IsWriteName(cmd) then 1 else 0)
      && u.successes == t.successes + (if success then 1 else 0)
      && u.failures == t.failures + (if success then 0 else 1)
      && u.latencies == t.latencies
  {
  }

  function Trues(marks: seq<bool>): nat {
    if marks == [] then 0 else (if marks[0] then 1 else 0) + Trues(marks[1..])
  }

  lemma {:induction false} CountEach(t: Tally, cmd: string, marks: seq<bool>)
    ensures var u := CountAll(t, cmd, marks);
      && u.readTotal == t.readTotal + (if IsReadName(cmd) then |marks| else 0)
      && u.writeTotal == t.writeTotal + (if IsWriteName(cmd) then |marks| else 0)
      && u.successes == t.successes + Trues(marks)
      && u.failures + Trues(marks) == t.failures + |marks|
    decreases |marks|
  {
    hide Count;
    hide IsReadName;
    hide IsWriteName;
    if marks == [] {
    } else {
      CountOne(t, cmd, marks[0]);
      CountEach(Count(t, cmd, marks[0]), cmd, marks[1..]);
    }
  }

  lemma ChargedEach(t: Tally, name: Option<string>, marks: seq<bool>, duration: real)
    ensures var u := Charged(t, name, marks, duration);
      if name.None? then u == t
      else
        && u.readTotal == t.readTotal + (if IsReadName(name.value) then |marks| else 0)
        && u.writeTotal == t.writeTotal + (if IsWriteName(name.value) then |marks| else 0)
        && u.successes == t.successes + Trues(marks)
        && u.failures + Trues(marks) == t.failures + |marks|
  {
    hide CountAll;
    hide IsReadName;
    hide IsWriteName;
    if name.Some? {
      CountEach(t, name.value, marks);
    }
  }

  /** Over any completed run the read counter grows by the increments of the fourteen read commands and the write
      counter by those of the fifteen write commands. */
  lemma {:induction false} ReadsAndWritesCounted(db: Db, t: Tally, reqs: seq<Sessions.Request>)
    requires AllAnswerable(reqs)
    ensures Serve(db, t, reqs).Up? ==> var u := Serve(db, t, reqs).tally;
      && u.readTotal == t.readTotal + IncrementsOf(IsReadName, db, reqs)
      && u.writeTotal == t.writeTotal + IncrementsOf(IsWriteName, db, reqs)
    decreases |reqs|
  {
    hide Handle;
    hide Charged;
    hide CountedName;
    hide IsReadName;
    hide IsWriteName;
    if reqs == [] || Handle(db, reqs[0].line, reqs[0].now).Throws? {
    } else {
      var r := reqs[0];
      var o := Handle(db, r.line, r.now);
      ChargedEach(t, CountedName(r.line), o.marks, r.duration);
      ReadsAndWritesCounted(o.db, Charged(t, CountedName(r.line), o.marks, r.duration), reqs[1..]);
    }
  }

  // ------------------------------------------------------ successes and failures

  /** A request with a token that is not FLUSHALL, answered otherwise than with an error line. */
  predicate Succeeds(db: Db, r: Sessions.Request)
    requires Answerable(r.line)
  {
    var o := Handle(db, r.line, r.now);
    Named(r) && !Flushes(r) && o.Done? && !o.reply.Failure?
  }

  /** A request with a token answered with an error line, or a LINDEX that found nothing. */
  predicate Fails(db: Db, r: Sessions.Request)
    requires Answerable(r.line)
  {
    var o := Handle(db, r.line, r.now);
    Named(r) && o.Done? && (o.reply.Failure? || o.reply == IndexMiss)
  }

  function SuccessesAlong(db: Db, reqs: seq<Sessions.Request>): nat
    requires AllAnswerable(reqs)
    decreases |reqs|
  {
    if reqs == [] then 0
    else
      var o := Handle(db, reqs[0].line, reqs[0].now);
      (if Succeeds(db, reqs[0]) then 1 else 0) + (if o.Done? then SuccessesAlong(o.db, reqs[1..]) else 0)
  }

  function FailuresAlong(db: Db, reqs: seq<Sessions.Request>): nat
    requires AllAnswerable(reqs)
    decreases |reqs|
  {
    if reqs == [] then 0
    else
      var o := Handle(db, reqs[0].line, reqs[0].now);
      (if Fails(db, reqs[0]) then 1 else 0) + (if o.Done? then FailuresAlong(o.db, reqs[1..]) else 0)
  }

  lemma FewMarks()
    ensures Trues([]) == 0 && Trues([true]) == 1 && Trues([false]) == 0 && Trues([false, true]) == 1
  {
    assert [true][1..] == [] && [false][1..] == [] && [false, true][1..] == [true];
  }

  lemma ListMarks(list: seq<string>, op: ListOp)
    ensures var o := ListStep(list, op);
      && Trues(o.marks) == (if o.reply.Failure? then 0 else 1)
      && |o.marks| - Trues(o.marks) == (if o.reply.Failure? || o.reply == IndexMiss then 1 else 0)
  {
    FewMarks();
    hide Trues;
    hide L.Remove;
    hide L.Reverse;
  }

  lemma HashNeverFails(hash: Fields, op: HashOp)
    ensures !HashStep(hash, op).1.Failure? && HashStep(hash, op).1 != IndexMiss
  {
    hide SetAll;
  }

  lemma MarksBySuccess(db: Db, c: Command)
    requires Apply(db, c).Done?
    ensures var o := Apply(db, c);
      && Trues(o.marks) == (if c.FlushAll? || o.reply.Failure? then 0 else 1)
      && |o.marks| - Trues(o.marks) == (if o.reply.Failure? || o.reply == IndexMiss then 1 else 0)
  {
    hide Trues;
    hide ListStep;
    hide HashStep;
    hide UsageText;
    FewMarks();
    if c.OnList? {
      ListMarks(ListAt(db, c.key), c.listOp);
    } else if c.OnHash? {
      HashNeverFails(HashAt(db, c.key), c.hashOp);
    }
  }

  lemma RequestMarks(db: Db, r: Sessions.Request)
    requires Answerable(r.line) && Handle(db, r.line, r.now).Done? && Named(r)
    ensures var marks := Handle(db, r.line, r.now).marks;
      && Trues(marks) == (if Succeeds(db, r) then 1 else 0)
      && |marks| - Trues(marks) == (if Fails(db, r) then 1 else 0)
  {
    hide ParseRequest;
    hide Apply;
    hide Interpret;
    hide ToUpper;
    hide NameOf;
    hide Trues;
    var tokens := RequestCodec.ParseRequest(r.line).tokens;
    MarksBySuccess(db, Interpret(tokens, r.now));
    FlushallIsFlush(tokens, r.now);
  }

  /** Over any completed run the success counter grows by the requests answered without an error, FLUSHALL excepted, and
      the failure counter by those answered with one; a LINDEX that finds nothing counts in both. */
  lemma {:induction false} SuccessesAndFailures(db: Db, t: Tally, reqs: seq<Sessions.Request>)
    requires AllAnswerable(reqs)
    ensures Serve(db, t, reqs).Up? ==> var u := Serve(db, t, reqs).tally;
      u.successes == t.successes + SuccessesAlong(db, reqs) && u.failures == t.failures + FailuresAlong(db, reqs)
    decreases |reqs|
  {
    hide Handle;
    hide Charged;
    hide CountedName;
    hide Trues;
    if reqs == [] || Handle(db, reqs[0].line, reqs[0].now).Throws? {
    } else {
      var r := reqs[0];
      var o := Handle(db, r.line, r.now);
      ChargedEach(t, CountedName(r.line), o.marks, r.duration);
      if Named(r) {
        RequestMarks(db, r);
      }
      SuccessesAndFailures(o.db, Charged(t, CountedName(r.line), o.marks, r.duration), reqs[1..]);
    }
  }

  // --------------------------------------------------- what reads and writes are

  /** Nothing changed but for entries left behind empty. */
  ghost predicate Unseen(a: Db, b: Db) {
    Alike(a, b) && a.expiry == b.expiry
  }

  /** A request with a read name changes nothing that can be seen. */
  lemma ReadNamesRead(db: Db, tokens: seq<string>, now: int)
    requires tokens != [] && InDomain(tokens) && IsReadName(ToUpper(tokens[0]))
    ensures var o := Apply(db, Interpret(tokens, now)); o.Done? ==> Unseen(o.db, db)
  {
    hide Alike;
    hide Apply;
    hide Interpret;
    hide ToUpper;
    hide IsReadName;
    hide Unseen;
    var c := Interpret(tokens, now);
    ReadNamesMean(tokens, now);
    NoNumberThrows(db);
    if Apply(db, c).Done? {
      ReadsUnseen(db, c);
    }
  }

  lemma NoNumberThrows(db: Db)
    ensures Apply(db, NotANumber) == Throws
  {
  }

  /** Commands that read. */
  predicate Reads(c: Command) {
    ReadOnly(c) || c.Keys? || c.Type?
  }

  lemma ReadNamesMean(tokens: seq<string>, now: int)
    requires tokens != [] && InDomain(tokens) && IsReadName(ToUpper(tokens[0]))
    ensures Reads(Interpret(tokens, now)) || Interpret(tokens, now) == NotANumber
  {
    hide ToUpper;
    hide Stoi;
    ReadNamesKnown(ToUpper(tokens[0]));
    hide NameOf;
    hide IsReadName;
  }

  lemma ReadNamesKnown(name: string)
    requires IsReadName(name)
    ensures NameOf(name).Some? && NameOf(name).value in
      {PING, ECHO, GET, KEYS, TYPE, LGET, LLEN, LINDEX, HGET, HEXISTS, HLEN, HKEYS, HVALS, HGETALL}
  {
  }

  lemma ReadsUnseen(db: Db, c: Command)
    requires Reads(c) && Apply(db, c).Done?
    ensures Unseen(Apply(db, c).db, db)
  {
    hide Alike;
    AlikeSelf(db);
    if ReadOnly(c) {
      ReadChangesNothing(db, c);
    }
    hide ListStep;
    hide HashStep;
  }

  /** A command and a state in which it changes something that can be seen. */
  function Example(name: Name, now: int): (Db, Command) {
    var text, list := EMPTY.(kv := map["k" := "v"]), PutList(EMPTY, "k", ["x"]);
    var hash := PutHash(EMPTY, "k", map["f" := "v"]);
    match name
    case FLUSHALL => (text, FlushAll)
    case SET => (text, Commands.Set("k", "w"))
    case DEL => (text, Del("k"))
    case UNLINK => (text, Del("k"))
    case EXPIRE => (text, Expire("k", "5", now))
    case RENAME => (text, Rename("k", "l"))
    case LSET => (list, OnList("k", LSet(0, "y")))
    case LPUSH => (list, OnList("k", LPush(["y"])))
    case RPUSH => (list, OnList("k", RPush(["y"])))
    case LPOP => (list, OnList("k", LPop))
    case RPOP => (list, OnList("k", RPop))
    case LREM => (list, OnList("k", LRem(1, "x")))
    case HSET => (hash, OnHash("k", HSet("f", "w")))
    case HDEL => (hash, OnHash("k", HDel("f")))
    case HMSET => (hash, OnHash("k", HMSet([("f", "w")])))
    case _ => (text, Ping)
  }

  /** For every write name some request changes something that can be seen. */
  lemma WriteNamesWrite(name: string, now: int) returns (db: Db, tokens: seq<string>)
    requires IsWriteName(name)
    ensures tokens != [] && ToUpper(tokens[0]) == name && InDomain(tokens)
    ensures Apply(db, Interpret(tokens, now)).Done? && !Unseen(Apply(db, Interpret(tokens, now)).db, db)
  {
    var n := WriteName(name);
    db := Example(n, now).0;
    var c := Example(n, now).1;
    tokens := if n == UNLINK then [Spelled(UNLINK), "k"] else TokensOf(c);
    ExampleTokens(n, now);
    SpelledInCapitals(n);
    ExampleSeen(n, now);
    hide Apply;
    hide Unseen;
    hide Spelled;
    hide ToUpper;
    if n == UNLINK {
      UnlinkIsDel("k", now);
    } else {
      hide TokensOf;
      TokensMean(c, now);
    }
  }

  lemma WriteName(name: string) returns (n: Name)
    requires IsWriteName(name)
    ensures Spelled(n) == name && IsWrite(n)
  {
    n := if name == "FLUSHALL" then FLUSHALL
         else if name == "SET" then SET
         else if name == "DEL" then DEL
         else if name == "UNLINK" then UNLINK
         else if name == "EXPIRE" then EXPIRE
         else if name == "RENAME" then RENAME
         else if name == "LSET" then LSET
         else if name == "LPUSH" then LPUSH
         else if name == "RPUSH" then RPUSH
         else if name == "LPOP" then LPOP
         else if name == "RPOP" then RPOP
         else if name == "LREM" then LREM
         else if name == "HSET" then HSET
         else if name == "HDEL" then HDEL
         else HMSET;
  }

  predicate IsWrite(n: Name) {
    n in {FLUSHALL, SET, DEL, UNLINK, EXPIRE, RENAME, LSET, LPUSH, RPUSH, LPOP, RPOP, LREM, HSET, HDEL, HMSET}
  }

  lemma ExampleTokens(n: Name, now: int)
    requires IsWrite(n)
    ensures var c := Example(n, now).1;
      && Askable(c) && (c.Expire? ==> c.now == now)
      && (if n == UNLINK then c == Del("k") else TokensOf(c) != [] && TokensOf(c)[0] == Spelled(n))
  {
    hide Spelled;
    hide NumberText;
  }

  lemma ExampleSeen(n: Name, now: int)
    requires IsWrite(n)
    ensures var db, c := Example(n, now).0, Example(n, now).1;
      Apply(db, c).Done? && !Unseen(Apply(db, c).db, db)
  {
    hide Unseen;
    var db, c := Example(n, now).0, Example(n, now).1;
    if c.OnList? {
      ListChanges(c.listOp);
      ListStepSeen(c.listOp);
    } else if c.OnHash? {
      FieldChanges(c.hashOp);
      HashStepSeen(c.hashOp);
    } else {
      KeyCommandSeen(c, now);
    }
  }

  lemma KeyCommandSeen(c: Command, now: int)
    requires c in {FlushAll, Commands.Set("k", "w"), Del("k"), Rename("k", "l"), Expire("k", "5", now)}
    ensures var db := EMPTY.(kv := map["k" := "v"]); Apply(db, c).Done? && !Unseen(Apply(db, c).db, db)
  {
    var db := EMPTY.(kv := map["k" := "v"]);
    assert "k" in db.kv && db.kv["k"] == "v";
    FiveIsRead();
    hide Stoll;
    if c.Expire? {
      assert "k" in Apply(db, c).db.expiry;
    } else {
      assert "k" !in Apply(db, c).db.kv || Apply(db, c).db.kv["k"] == "w";
    }
  }

  lemma FiveIsRead()
    ensures Stoll("5").Some?
  {
    DecimalDigits(5);
    assert ToDecimal(5) == "5";
    SignedOfDigits("5");
    DecimalValue(5);
  }

  lemma ListChanges(op: ListOp)
    requires op in {LSet(0, "y"), LPush(["y"]), RPush(["y"]), LPop, RPop, LRem(1, "x")}
    ensures ListStep(["x"], op).list != ["x"]
  {
    assert ["x"][1..] == [];
    if op.LSet? {
      assert ListStep(["x"], op).list[0] == "y";
    } else if op.LRem? {
      assert L.Remove(["x"], 1, "x") == [];
    } else if op.LPush? || op.RPush? {
      assert |ListStep(["x"], op).list| == 2;
    } else {
      assert |ListStep(["x"], op).list| == 0;
    }
  }

  /** A list command that makes another list is seen. */
  lemma ListStepSeen(op: ListOp)
    requires ListStep(["x"], op).list != ["x"]
    ensures var db := PutList(EMPTY, "k", ["x"]); !Unseen(Apply(db, OnList("k", op)).db, db)
  {
    hide ListStep;
    var db := PutList(EMPTY, "k", ["x"]);
    assert ListAt(Apply(db, OnList("k", op)).db, "k") == ListStep(["x"], op).list;
    assert ListAt(db, "k") == ["x"];
  }

  lemma HashStepSeen(op: HashOp)
    requires HashStep(map["f" := "v"], op).0 != map["f" := "v"]
    ensures var db := PutHash(EMPTY, "k", map["f" := "v"]); !Unseen(Apply(db, OnHash("k", op)).db, db)
  {
    hide HashStep;
    var db := PutHash(EMPTY, "k", map["f" := "v"]);
    assert HashAt(Apply(db, OnHash("k", op)).db, "k") == HashStep(map["f" := "v"], op).0;
    assert HashAt(db, "k") == map["f" := "v"];
  }

  lemma FieldChanges(op: HashOp)
    requires op == HSet("f", "w") || op == HDel("f") || op == HMSet([("f", "w")])
    ensures HashStep(map["f" := "v"], op).0 != map["f" := "v"]
  {
    var hash: Fields := map["f" := "v"];
    assert hash["f"] == "v";
    if op.HMSet? {
      var pairs := [("f", "w")];
      assert pairs[..0] == [];
      assert SetAll(hash, pairs) == SetAll(hash, [])["f" := "w"];
    }
  }
}
