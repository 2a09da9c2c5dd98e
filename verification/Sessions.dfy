/** Runs of byte requests: the counters they move, and a value's way over the wire and back. */
module Sessions {
  import opened Bytes
  import opened Decimal
  import opened Store
  import opened RequestCodec
  import opened ReplyCodec
  import opened Commands
  import opened Runs
  import opened MetricsModel
  import opened CommandHandlers

  /** One request as received, with what the clock said about it. */
  datatype Request = Request(line: string, now: int, duration: real)

  datatype Service = Up(db: Db, tally: Tally) | Down

  predicate AllAnswerable(reqs: seq<Request>) {
    forall i :: 0 <= i < |reqs| ==> Answerable(reqs[i].line)
  }

  /** The state and the counters after a run of requests; an exception takes the server down. */
  function Serve(db: Db, t: Tally, reqs: seq<Request>): Service
    requires AllAnswerable(reqs)
    decreases |reqs|
  {
    if reqs == [] then Up(db, t)
    else
      var r := reqs[0];
      match Handle(db, r.line, r.now)
      case Throws => Down
      case Done(db', reply, marks) => Serve(db', Charged(t, CountedName(r.line), marks, r.duration), reqs[1..])
  }

  // ------------------------------------------------------------- conservation

  predicate Named(r: Request) {
    CountedName(r.line).Some?
  }

  predicate Flushes(r: Request) {
    CountedName(r.line) == Some("FLUSHALL")
  }

  predicate Nameless(r: Request) {
    CountedName(r.line) == Some("")
  }

  predicate Unrecognised(r: Request) {
    Named(r) && NameOf(CountedName(r.line).value).None?
  }

  function HowMany(p: Request -> bool, reqs: seq<Request>): nat {
    if reqs == [] then 0 else (if p(reqs[0]) then 1 else 0) + HowMany(p, reqs[1..])
  }

  predicate Misses(db: Db, r: Request)
    requires Answerable(r.line)
  {
    var o := Handle(db, r.line, r.now);
    o.Done? && o.reply == IndexMiss
  }

  /** LINDEX requests answered with the empty-result reply, along the run. */
  function IndexMisses(db: Db, reqs: seq<Request>): nat
    requires AllAnswerable(reqs)
    decreases |reqs|
  {
    if reqs == [] then 0
    else
      var o := Handle(db, reqs[0].line, reqs[0].now);
      (if Misses(db, reqs[0]) then 1 else 0) + (if o.Done? then IndexMisses(o.db, reqs[1..]) else 0)
  }

  function Counted(t: Tally): nat {
    t.successes + t.failures
  }

  function Classified(t: Tally): nat {
    t.readTotal + t.writeTotal
  }

  /** A command name is dispatched exactly when it is classified as a read or a write. */
  lemma KnownIsClassified(cmd: string)
    ensures NameOf(cmd).Some? <==> ClassifyCommand(cmd) != Other
  {
    if cmd in READ_COMMANDS {
      assert NameOf(cmd).Some?;
    } else if cmd in WRITE_COMMANDS {
      assert NameOf(cmd).Some?;
    } else {
      assert NameOf(cmd).None?;
    }
  }

  lemma {:induction false} CountAllTotals(t: Tally, cmd: string, marks: seq<bool>)
    ensures var u := CountAll(t, cmd, marks);
      Counted(u) == Counted(t) + |marks| && u.latencies == t.latencies &&
      Classified(u) == Classified(t) + (if NameOf(cmd).Some? then |marks| else 0)
    decreases |marks|
  {
    hide NameOf;
    hide ClassifyCommand;
    KnownIsClassified(cmd);
    if marks == [] {
    } else {
      CountAllTotals(Count(t, cmd, marks[0]), cmd, marks[1..]);
    }
  }

  lemma FlushallByName(cmd: string)
    ensures NameOf(cmd) == Some(FLUSHALL) <==> cmd == "FLUSHALL"
  {
  }

  /** How many increments one command makes. */
  lemma MarksOfCommand(db: Db, c: Command)
    requires Apply(db, c).Done?
    ensures var o := Apply(db, c);
      |o.marks| == (if c.FlushAll? then 0 else if o.reply == IndexMiss then 2 else 1)
  {
  }

  lemma FlushallIsFlush(tokens: seq<string>, now: int)
    requires tokens != [] && InDomain(tokens)
    ensures Interpret(tokens, now).FlushAll? <==> ToUpper(tokens[0]) == "FLUSHALL"
    ensures Interpret(tokens, now).Unknown? <==> NameOf(ToUpper(tokens[0])).None?
  {
    FlushallByName(ToUpper(tokens[0]));
    hide NameOf;
    hide ToUpper;
    hide Stoi;
  }

  /** One request's increments: one, none for FLUSHALL, two for a LINDEX miss, none without tokens. */
  lemma MarksOfRequest(db: Db, r: Request)
    requires Answerable(r.line) && Handle(db, r.line, r.now).Done?
    ensures var o := Handle(db, r.line, r.now);
      |o.marks| == (if Named(r) then 1 else 0) - (if Flushes(r) then 1 else 0) + (if Misses(db, r) then 1 else 0)
    ensures var o := Handle(db, r.line, r.now);
      (Unrecognised(r) ==> |o.marks| == 1) && (!Named(r) ==> o.marks == [])
  {
    hide ParseRequest;
    hide Apply;
    hide Interpret;
    hide NameOf;
    hide ToUpper;
    var tokens := ParseRequest(r.line).tokens;
    if tokens != [] {
      var c := Interpret(tokens, r.now);
      MarksOfCommand(db, c);
      FlushallIsFlush(tokens, r.now);
      if c.FlushAll? || c.Unknown? {
        FlushNeverMisses(db, c);
      }
      FlushallByName(ToUpper(tokens[0]));
    }
  }

  lemma FlushNeverMisses(db: Db, c: Command)
    requires c.FlushAll? || c.Unknown?
    ensures Apply(db, c).Done? && Apply(db, c).reply != IndexMiss
  {
  }

  /** Conservation of the counters over any completed run: increments are the requests that had a token,
      less the FLUSHALLs, plus the LINDEX misses, which count twice; reads and writes together are those
      increments less the unknown commands. */
  lemma {:induction false} CountersConserved(db: Db, t: Tally, reqs: seq<Request>)
    requires AllAnswerable(reqs)
    ensures Serve(db, t, reqs).Up? ==> var u := Serve(db, t, reqs).tally;
      Counted(u) == Counted(t) + HowMany(Named, reqs) - HowMany(Flushes, reqs) + IndexMisses(db, reqs) &&
      Classified(u) - Classified(t) == Counted(u) - Counted(t) - HowMany(Unrecognised, reqs)
    decreases |reqs|
  {
    hide Handle;
    hide CountAll;
    hide Observe;
    hide NameOf;
    hide CountedName;
    if reqs == [] || Handle(db, reqs[0].line, reqs[0].now).Throws? {
    } else {
      var r := reqs[0];
      var o := Handle(db, r.line, r.now);
      var t' := Charged(t, CountedName(r.line), o.marks, r.duration);
      MarksOfRequest(db, r);
      ChargedTotals(t, CountedName(r.line), o.marks, r.duration);
      CountersConserved(o.db, t', reqs[1..]);
    }
  }

  lemma ChargedTotals(t: Tally, name: Option<string>, marks: seq<bool>, duration: real)
    ensures var u := Charged(t, name, marks, duration);
      Counted(u) == Counted(t) + (if name.Some? then |marks| else 0) &&
      Classified(u) == Classified(t) + (if name.Some? && NameOf(name.value).Some? then |marks| else 0)
  {
    hide NameOf;
    hide CountAll;
    if name.Some? {
      CountAllTotals(t, name.value, marks);
    }
  }

  // ------------------------------------------------------------- latencies

  /** The durations of the requests named `cmd`, in order. */
  function DurationsOf(cmd: string, reqs: seq<Request>): seq<real> {
    if reqs == [] then []
    else (if CountedName(reqs[0].line) == Some(cmd) then [reqs[0].duration] else []) + DurationsOf(cmd, reqs[1..])
  }

  lemma ChargedLatencies(t: Tally, name: Option<string>, marks: seq<bool>, duration: real, cmd: string)
    requires cmd != ""
    ensures DurationsIn(Charged(t, name, marks, duration).latencies, cmd)
         == DurationsIn(t.latencies, cmd) + (if name == Some(cmd) then [duration] else [])
  {
    hide CountAll;
    if name.Some? {
      CountAllTotals(t, name.value, marks);
    }
  }

  /** Every histogram holds exactly the durations of the requests with that command name. */
  lemma {:induction false} HistogramsHoldDurations(db: Db, t: Tally, reqs: seq<Request>, cmd: string)
    requires AllAnswerable(reqs) && cmd != ""
    ensures Serve(db, t, reqs).Up? ==>
      DurationsIn(Serve(db, t, reqs).tally.latencies, cmd) == DurationsIn(t.latencies, cmd) + DurationsOf(cmd, reqs)
    decreases |reqs|
  {
    hide Handle;
    hide Charged;
    hide CountedName;
    hide DurationsIn;
    if reqs == [] || Handle(db, reqs[0].line, reqs[0].now).Throws? {
    } else {
      var r := reqs[0];
      var o := Handle(db, r.line, r.now);
      ChargedLatencies(t, CountedName(r.line), o.marks, r.duration, cmd);
      HistogramsHoldDurations(o.db, Charged(t, CountedName(r.line), o.marks, r.duration), reqs[1..], cmd);
    }
  }

  /** Observations summed over all commands. */
  ghost function TotalCount(latencies: map<string, seq<real>>): nat
    decreases |latencies|
  {
    if latencies == map[] then 0
    else
      var c :| c in latencies;
      |latencies[c]| + TotalCount(latencies - {c})
  }

  lemma {:induction false} TotalWithout(latencies: map<string, seq<real>>, c: string)
    requires c in latencies
    ensures TotalCount(latencies) == |latencies[c]| + TotalCount(latencies - {c})
    decreases |latencies|
  {
    var d :| d in latencies && TotalCount(latencies) == |latencies[d]| + TotalCount(latencies - {d});
    if c == d {
    } else {
      TotalWithout(latencies - {d}, c);
      TotalWithout(latencies - {c}, d);
      assert latencies - {d} - {c} == latencies - {c} - {d};
    }
  }

  lemma ObservedTotal(t: Tally, cmd: string, duration: real)
    ensures TotalCount(Observe(t, cmd, duration).latencies)
         == TotalCount(t.latencies) + (if cmd == "" then 0 else 1)
  {
    if cmd != "" {
      var more := Observe(t, cmd, duration).latencies;
      TotalWithout(more, cmd);
      if cmd in t.latencies {
        TotalWithout(t.latencies, cmd);
        assert more - {cmd} == t.latencies - {cmd};
      } else {
        assert more - {cmd} == t.latencies;
      }
    }
  }

  /** Histogram counts summed over all commands grow by the requests that had a token, less those whose
      command name was empty. */
  lemma {:induction false} ObservationsConserved(db: Db, t: Tally, reqs: seq<Request>)
    requires AllAnswerable(reqs)
    ensures Serve(db, t, reqs).Up? ==>
      TotalCount(Serve(db, t, reqs).tally.latencies)
      == TotalCount(t.latencies) + HowMany(Named, reqs) - HowMany(Nameless, reqs)
    decreases |reqs|
  {
    hide Handle;
    hide CountAll;
    hide Observe;
    hide CountedName;
    hide TotalCount;
    if reqs == [] || Handle(db, reqs[0].line, reqs[0].now).Throws? {
    } else {
      var r := reqs[0];
      var o := Handle(db, r.line, r.now);
      var name := CountedName(r.line);
      var t' := Charged(t, name, o.marks, r.duration);
      if name.Some? {
        CountAllTotals(t, name.value, o.marks);
        ObservedTotal(CountAll(t, name.value, o.marks), name.value, r.duration);
      }
      ObservationsConserved(o.db, t', reqs[1..]);
    }
  }

  // ------------------------------------------------------------- end to end

  predicate WritesString(c: Command, key: string) {
    match c
    case Set(k, _) => k == key
    case Del(k) => k == key
    case Rename(oldKey, newKey) => oldKey == key || newKey == key
    case FlushAll => true
    case _ => false
  }

  predicate RequestWritesString(r: Request, key: string)
    requires Answerable(r.line)
  {
    match ParseRequest(r.line)
    case Tokens(tokens) => tokens != [] && WritesString(Interpret(tokens, r.now), key)
    case _ => false
  }

  predicate SparesString(reqs: seq<Request>, key: string) {
    AllAnswerable(reqs) && forall i :: 0 <= i < |reqs| ==> !RequestWritesString(reqs[i], key)
  }

  lemma StringKept(db: Db, c: Command, key: string)
    requires !WritesString(c, key) && Apply(db, c).Done?
    ensures key in Apply(db, c).db.kv <==> key in db.kv
    ensures key in db.kv ==> Apply(db, c).db.kv[key] == db.kv[key]
  {
    hide ListStep;
    hide HashStep;
  }

  lemma {:induction false} StringKeptByRun(db: Db, t: Tally, reqs: seq<Request>, key: string)
    requires SparesString(reqs, key)
    ensures Serve(db, t, reqs).Up? ==> var db' := Serve(db, t, reqs).db;
      (key in db'.kv <==> key in db.kv) && (key in db.kv ==> db'.kv[key] == db.kv[key])
    decreases |reqs|
  {
    hide ParseRequest;
    hide Interpret;
    hide Apply;
    hide Charged;
    if reqs == [] || Handle(db, reqs[0].line, reqs[0].now).Throws? {
    } else {
      var r := reqs[0];
      assert !RequestWritesString(r, key);
      var o := Handle(db, r.line, r.now);
      var tokens := ParseRequest(r.line).tokens;
      if tokens != [] {
        StringKept(db, Interpret(tokens, r.now), key);
      }
      StringKeptByRun(o.db, Charged(t, CountedName(r.line), o.marks, r.duration), reqs[1..], key);
    }
  }

  /** What `sendCommand` puts on the wire: the encoded tokens and one more CRLF. */
  function OnTheWire(tokens: seq<string>): string {
    EncodeRequest(tokens) + CRLF
  }

  lemma WireIsParsed(db: Db, tokens: seq<string>, now: int)
    requires tokens != [] && |tokens| <= INT_MAX && FitsInt(tokens) && |OnTheWire(tokens)| <= MAX_SIZE
    requires InDomain(tokens)
    ensures Answerable(OnTheWire(tokens))
    ensures Handle(db, OnTheWire(tokens), now) == Apply(db, Interpret(tokens, now))
  {
    hide ParseRequest;
    hide Interpret;
    hide Apply;
    RequestRoundTrip(tokens, CRLF);
  }

  lemma SetMeans(tokens: seq<string>, now: int)
    requires |tokens| == 3 && ToUpper(tokens[0]) == "SET"
    ensures InDomain(tokens) && Interpret(tokens, now) == Commands.Set(tokens[1], tokens[2])
  {
  }

  lemma GetMeans(tokens: seq<string>, now: int)
    requires |tokens| == 2 && ToUpper(tokens[0]) == "GET"
    ensures InDomain(tokens) && Interpret(tokens, now) == Commands.Get(tokens[1])
  {
  }

  /** Tokens a client can send and the server answer as one command. */
  predicate Sendable(tokens: seq<string>) {
    tokens != [] && |tokens| <= INT_MAX && FitsInt(tokens) && |OnTheWire(tokens)| <= MAX_SIZE && InDomain(tokens)
  }

  /** Lines handled one after another, each at its own clock reading, with their replies. */
  function Converse(db: Db, lines: seq<string>, clock: seq<int>): RunResult
    requires |clock| == |lines| && forall i :: 0 <= i < |lines| ==> Answerable(lines[i])
    decreases |lines|
  {
    if lines == [] then Ran(db, [])
    else
      match Handle(db, lines[0], clock[0])
      case Throws => Crashed
      case Done(db', reply, _) => After(reply, Converse(db', lines[1..], clock[1..]))
  }

  function Meanings(requests: seq<seq<string>>, clock: seq<int>): seq<Command>
    requires |clock| == |requests| && forall i :: 0 <= i < |requests| ==> Sendable(requests[i])
  {
    if requests == [] then []
    else
      assert Sendable(requests[0]);
      [Interpret(requests[0], clock[0])] + Meanings(requests[1..], clock[1..])
  }

  function Wires(requests: seq<seq<string>>): (lines: seq<string>)
    ensures |lines| == |requests|
  {
    if requests == [] then [] else [OnTheWire(requests[0])] + Wires(requests[1..])
  }

  /** Whole requests run as their commands, reply by reply. */
  lemma {:induction false} WholeRequestsRun(db: Db, requests: seq<seq<string>>, clock: seq<int>)
    requires |clock| == |requests| && forall i :: 0 <= i < |requests| ==> Sendable(requests[i])
    ensures forall i :: 0 <= i < |Wires(requests)| ==> Answerable(Wires(requests)[i])
    ensures Converse(db, Wires(requests), clock) == Run(db, Meanings(requests, clock))
    decreases |requests|
  {
    hide Apply;
    hide Handle;
    hide Interpret;
    hide Answerable;
    hide OnTheWire;
    if requests == [] {
    } else {
      var first, rest := requests[0], requests[1..];
      assert Sendable(first);
      WireIsParsed(db, first, clock[0]);
      var o := Apply(db, Interpret(first, clock[0]));
      WholeRequestsRun(if o.Done? then o.db else db, rest, clock[1..]);
      assert Wires(requests)[1..] == Wires(rest);
      assert Meanings(requests, clock)[1..] == Meanings(rest, clock[1..]);
      assert forall i :: 0 < i < |Wires(requests)| ==> Wires(requests)[i] == Wires(rest)[i - 1];
    }
  }

  /** The run completes in this state. */
  predicate Reaches(db: Db, t: Tally, reqs: seq<Request>, end: Db) {
    AllAnswerable(reqs) && Serve(db, t, reqs).Up? && Serve(db, t, reqs).db == end
  }

  predicate AnswersWith(db: Db, r: Request, reply: Reply) {
    Answerable(r.line) && Handle(db, r.line, r.now) == Done(db, reply, [true])
  }

  /** The two framings of one command are served alike. */
  lemma FramingsServedAlike(db: Db, now: int, seps: seq<string>, ts: seq<string>, blanks: string)
    requires |seps| == |ts| <= INT_MAX && Separators(seps) && Blank(blanks)
    requires ts != [] && AllWords(ts) && FitsInt(ts) && InDomain(ts)
    requires seps[0] != "" || ts[0][0] != '*'
    requires |OnTheWire(ts)| <= MAX_SIZE
    ensures var line := Interleave(seps, ts) + blanks;
      Answerable(line) && Answerable(OnTheWire(ts)) &&
      Handle(db, line, now) == Handle(db, OnTheWire(ts), now) == Apply(db, Interpret(ts, now))
  {
    hide ParseRequest;
    hide Interpret;
    hide Apply;
    hide Separators;
    FramingsAgree(seps, ts, blanks, CRLF);
    WireIsParsed(db, ts, now);
  }

  // ---------------------------------------------------------- limited receives

  /** A command sent in one piece is parsed as sent exactly when its last payload ends within one receive; a
      longer one is parsed as its first tokens. */
  lemma OneReceive(ts: seq<string>)
    requires ts != [] && |ts| <= INT_MAX && FitsInt(ts)
    ensures ParseRequest(Received(OnTheWire(ts))) == Tokens(ts[..WholeTokens(ts, |Received(OnTheWire(ts))|)])
    ensures ParseRequest(Received(OnTheWire(ts))) == Tokens(ts) <==> |EncodeRequest(ts)| <= RECEIVE_LIMIT + 2
  {
    hide ParseRequest;
    var n := |Received(OnTheWire(ts))|;
    var whole := OnTheWire(ts);
    assert Received(whole) == whole[..n];
    TruncatedRequest(ts, CRLF, n);
    var last := |ts| - 1;
    WholeTokensByPosition(ts, n, last);
    assert ts[..last + 1] == ts;
    var k := WholeTokens(ts, n);
    assert ts[..k] == ts <==> k == |ts|;
  }

  /** A command of these tokens reaches the server within its first receive. */
  predicate ReceivedWhole(ts: seq<string>) {
    |EncodeRequest(ts)| <= RECEIVE_LIMIT + 2
  }

  /** The requests one send becomes when all its bytes have arrived: one for each receive. */
  function Receives(bytes: string): seq<string>
    decreases |bytes|
  {
    if bytes == "" then [] else [Received(bytes)] + Receives(bytes[|Received(bytes)|..])
  }

  /** The i-th request is the i-th stretch of 4095 bytes, the last one whatever is left, and every byte is in
      one of them. */
  lemma {:induction false} ReceivesAt(bytes: string, i: nat)
    requires bytes != ""
    ensures var n := |Receives(bytes)|;
      RECEIVE_LIMIT * (n - 1) < |bytes| <= RECEIVE_LIMIT * n &&
      (i < n ==> RECEIVE_LIMIT * i < |bytes| && Receives(bytes)[i] == Received(bytes[RECEIVE_LIMIT * i..]))
    decreases |bytes|
  {
    var rest := bytes[|Received(bytes)|..];
    if rest == "" {
      assert bytes[0..] == bytes;
    } else {
      ReceivesAt(rest, if i == 0 then 0 else i - 1);
      assert bytes[0..] == bytes;
      if 0 < i < |Receives(bytes)| {
        assert Receives(bytes)[i] == Receives(rest)[i - 1];
        assert rest[RECEIVE_LIMIT * (i - 1)..] == bytes[RECEIVE_LIMIT * i..];
      }
    }
  }

  /** The server sees one request, the command as sent, exactly when the whole send fits one receive. */
  lemma OneRequestIff(ts: seq<string>)
    requires ts != [] && |ts| <= INT_MAX && FitsInt(ts)
    ensures var requests := Receives(OnTheWire(ts));
      |requests| == 1 && ParseRequest(requests[0]) == Tokens(ts) <==> |OnTheWire(ts)| <= RECEIVE_LIMIT
  {
    hide ParseRequest;
    hide EncodeRequest;
    var bytes := OnTheWire(ts);
    ReceivesAt(bytes, 0);
    assert bytes[0..] == bytes;
    OneReceive(ts);
  }

  /** The requests the server sees of sends that each arrive whole before the next one starts. */
  function AllRequests(sends: seq<string>): seq<string> {
    if sends == [] then [] else Receives(sends[0]) + AllRequests(sends[1..])
  }

  predicate AllWithinReceive(texts: seq<string>) {
    forall i :: 0 <= i < |texts| ==> |texts[i]| <= RECEIVE_LIMIT
  }

  lemma HowManyReceives(bytes: string)
    requires bytes != ""
    ensures |Receives(bytes)| >= 1
    ensures |Receives(bytes)| == 1 <==> |bytes| <= RECEIVE_LIMIT
    ensures |bytes| <= RECEIVE_LIMIT ==> Receives(bytes) == [bytes]
  {
    ReceivesAt(bytes, 0);
    assert bytes[0..] == bytes;
  }

  /** There is one request for each send exactly when every send fits one receive, and then each request is the
      whole send. */
  lemma {:induction false} OneRequestEach(sends: seq<string>)
    requires forall i :: 0 <= i < |sends| ==> sends[i] != ""
    ensures |AllRequests(sends)| >= |sends|
    ensures |AllRequests(sends)| == |sends| <==> AllWithinReceive(sends)
    ensures AllWithinReceive(sends) ==> AllRequests(sends) == sends
  {
    hide Receives;
    if sends == [] {
    } else {
      var rest := sends[1..];
      HowManyReceives(sends[0]);
      OneRequestEach(rest);
      assert AllWithinReceive(sends) <==> |sends[0]| <= RECEIVE_LIMIT && AllWithinReceive(rest) by {
        assert forall i :: 0 < i < |sends| ==> sends[i] == rest[i - 1];
        assert forall i :: 0 <= i < |rest| ==> rest[i] == sends[i + 1];
      }
    }
  }

  lemma {:induction false} WiresAt(requests: seq<seq<string>>, i: nat)
    requires i < |requests|
    ensures Wires(requests)[i] == OnTheWire(requests[i])
  {
    hide OnTheWire;
    if i == 0 {
    } else {
      WiresAt(requests[1..], i - 1);
    }
  }

  lemma SendsNotEmpty(requests: seq<seq<string>>)
    ensures forall i :: 0 <= i < |requests| ==> Wires(requests)[i] == OnTheWire(requests[i]) != ""
  {
    forall i | 0 <= i < |requests|
      ensures Wires(requests)[i] == OnTheWire(requests[i]) != ""
    {
      WiresAt(requests, i);
    }
  }

  /** Commands sent one after another become one request each exactly when every send fits one receive; then they
      run as the commands, reply by reply, so that every law of runs is a law of such byte conversations. */
  lemma WireRunsCommands(db: Db, requests: seq<seq<string>>, clock: seq<int>)
    requires |clock| == |requests| && forall i :: 0 <= i < |requests| ==> Sendable(requests[i])
    ensures |AllRequests(Wires(requests))| == |requests|
            <==> forall i :: 0 <= i < |requests| ==> |OnTheWire(requests[i])| <= RECEIVE_LIMIT
    ensures |AllRequests(Wires(requests))| == |requests| ==>
      (forall i :: 0 <= i < |requests| ==> Answerable(AllRequests(Wires(requests))[i])) &&
      Converse(db, AllRequests(Wires(requests)), clock) == Run(db, Meanings(requests, clock))
  {
    hide Converse;
    hide Run;
    hide Answerable;
    hide Sendable;
    hide AllRequests;
    var sends := Wires(requests);
    SendsNotEmpty(requests);
    OneRequestEach(sends);
    WholeRequestsRun(db, requests, clock);
  }

  // ------------------------------------------------------- the client's connection

  /** What each `receiveResponse` takes: `arrivals[i]` is what reaches the client before its i-th receive, and
      `unread` was left over before. */
  function Fetched(unread: string, arrivals: seq<string>): (fetched: seq<string>)
    ensures |fetched| == |arrivals|
    decreases |arrivals|
  {
    if arrivals == [] then []
    else
      var stream := unread + arrivals[0];
      [Received(stream)] + Fetched(stream[|Received(stream)|..], arrivals[1..])
  }

  /** What is still unread after those receives. */
  function Unread(unread: string, arrivals: seq<string>): string
    decreases |arrivals|
  {
    if arrivals == [] then unread
    else
      var stream := unread + arrivals[0];
      Unread(stream[|Received(stream)|..], arrivals[1..])
  }

  function Concat(texts: seq<string>): string {
    if texts == [] then "" else texts[0] + Concat(texts[1..])
  }

  /** The connection is a stream: what was fetched and what is unread are what arrived, in order. */
  lemma {:induction false} NothingLost(unread: string, arrivals: seq<string>)
    ensures Concat(Fetched(unread, arrivals)) + Unread(unread, arrivals) == unread + Concat(arrivals)
    decreases |arrivals|
  {
    if arrivals == [] {
      assert "" + unread == unread + "";
    } else {
      var stream := unread + arrivals[0];
      var got, left := Received(stream), stream[|Received(stream)|..];
      NothingLost(left, arrivals[1..]);
      var later := Fetched(left, arrivals[1..]);
      assert ([got] + later)[1..] == later;
      assert got + left == stream;
      assert got + Concat(later) + Unread(left, arrivals[1..]) == got + (Concat(later) + Unread(left, arrivals[1..]));
      assert got + (left + Concat(arrivals[1..])) == stream + Concat(arrivals[1..]);
    }
  }

  /** Each receive takes exactly what arrived for it if and only if every arrival fits one receive. */
  lemma {:induction false} FetchedInStep(arrivals: seq<string>)
    ensures Fetched("", arrivals) == arrivals <==> AllWithinReceive(arrivals)
    decreases |arrivals|
  {
    if arrivals == [] {
    } else {
      var first, rest := arrivals[0], arrivals[1..];
      assert "" + first == first;
      if |first| <= RECEIVE_LIMIT {
        assert first[|first|..] == "";
        FetchedInStep(rest);
        assert Fetched("", arrivals) == [first] + Fetched("", rest);
        assert Fetched("", arrivals)[1..] == Fetched("", rest);
        assert AllWithinReceive(arrivals) <==> AllWithinReceive(rest) by {
          assert forall i :: 0 < i < |arrivals| ==> arrivals[i] == rest[i - 1];
          assert forall i :: 0 <= i < |rest| ==> rest[i] == arrivals[i + 1];
        }
      } else {
        assert |Fetched("", arrivals)[0]| == RECEIVE_LIMIT;
      }
    }
  }

  /** A connection is in step, one request for each command and one whole reply for each receive, exactly when
      every send and every reply fits one receive. */
  lemma ConnectionInStep(commands: seq<seq<string>>, replies: seq<string>)
    requires |replies| == |commands|
    ensures |AllRequests(Wires(commands))| == |commands| && Fetched("", replies) == replies
            <==> AllWithinReceive(Wires(commands)) && AllWithinReceive(replies)
  {
    hide Wires;
    hide OnTheWire;
    hide AllRequests;
    hide Fetched;
    hide AllWithinReceive;
    SendsNotEmpty(commands);
    OneRequestEach(Wires(commands));
    FetchedInStep(replies);
  }

  /** Out of step: a reply longer than one receive is still being read when the next ones have arrived, and what
      is shown for them is a later stretch of it. */
  lemma LateReply(before: string, long: string, after: string)
    requires |before| <= RECEIVE_LIMIT && |long| >= 2 * RECEIVE_LIMIT
    ensures Fetched("", [before, long, after])
         == [before, long[..RECEIVE_LIMIT], long[RECEIVE_LIMIT..2 * RECEIVE_LIMIT]]
  {
    var arrivals := [before, long, after];
    assert "" + before == before && before[|before|..] == "" && "" + long == long;
    assert arrivals[1..] == [long, after] && [long, after][1..] == [after] && [after][1..] == [];
    var left := long[RECEIVE_LIMIT..];
    assert Received(left + after) == long[RECEIVE_LIMIT..2 * RECEIVE_LIMIT];
    assert Fetched(left, [after]) == [Received(left + after)] + Fetched((left + after)[RECEIVE_LIMIT..], []);
    assert Fetched("", [long, after]) == [long[..RECEIVE_LIMIT]] + Fetched(left, [after]);
  }

  /** What the server answers to a request without tokens. */
  const EMPTY_COMMAND_TEXT: string := "-" + ("Error: Empty command" + CRLF)

  lemma {:induction false} EmptyCommandShown(more: string)
    requires |more| < RECEIVE_LIMIT
    ensures Decode(EMPTY_COMMAND_TEXT + more) == Text("ERROR: Error: Empty command")
  {
    hide Decode;
    hide FindCrlf;
    var text := "Error: Empty command";
    var t := text + CRLF + more;
    assert EMPTY_COMMAND_TEXT + more == "-" + t;
    FailureDecodes(t);
    assert forall j :: 0 <= j < |text| ==> t[j] == text[j] != '\r';
    CrlfFound(t, 0, |text|);
    assert UpToCrlf(t) == text;
    assert "ERROR: " + text == "ERROR: Error: Empty command";
  }

  /** A SET whose line ends spill over is answered twice. When the second answer, to the empty request, arrives
      after the client has read the first, the client shows it for the next command. */
  lemma SpilledReplyIsLate(ok: string, reply: string)
    requires |ok| <= RECEIVE_LIMIT
    ensures var fetched := Fetched("", [ok, EMPTY_COMMAND_TEXT + reply]);
      Decode(fetched[1]) == Text("ERROR: Error: Empty command")
  {
    hide Decode;
    var late := EMPTY_COMMAND_TEXT + reply;
    assert "" + ok == ok && ok[|ok|..] == "" && "" + late == late;
    assert [ok, late][1..] == [late];
    var r := Received(late);
    assert Fetched("", [ok, late])[1] == Fetched("", [late])[0] == r;
    var more := r[|EMPTY_COMMAND_TEXT|..];
    assert r == EMPTY_COMMAND_TEXT + more;
    EmptyCommandShown(more);
  }

  /** Every encoded command ends in CRLF, and `sendCommand` adds another. */
  lemma EndsInCrlf(ts: seq<string>)
    requires ts != []
    ensures |EncodeRequest(ts)| >= 2
    ensures EncodeRequest(ts)[|EncodeRequest(ts)| - 2..] == CRLF
  {
    var n := |ts| - 1;
    BulksSnoc(ts, n);
    assert ts[..n + 1] == ts;
    var front := Header('*', |ts|) + (Bulks(ts[..n]) + (Header('$', |ts[n]|) + ts[n]));
    assert EncodeRequest(ts) == front + CRLF;
  }

  lemma LineEndsAreBlank(encoded: string, n: nat)
    requires |encoded| >= 2 && encoded[|encoded| - 2..] == CRLF && |encoded| - 2 <= n < |encoded| + 2
    ensures var left := (encoded + CRLF)[n..]; Blank(left) && ParseRequest(left) == Tokens([])
  {
    var left := (encoded + CRLF)[n..];
    assert encoded[|encoded| - 2..][0] == '\r' && encoded[|encoded| - 2..][1] == '\n';
    forall i | 0 <= i < |left|
      ensures left[i] == '\r' || left[i] == '\n'
    {
      assert left[i] == (encoded + CRLF)[n + i];
    }
    assert left[0] != '*';
    WordsOfBlank(left);
  }

  /** What does not fit the first receive, but fits another, is the second request. */
  lemma TwoReceives(bytes: string)
    requires RECEIVE_LIMIT < |bytes| <= 2 * RECEIVE_LIMIT
    ensures Receives(bytes) == [Received(bytes), bytes[RECEIVE_LIMIT..]]
  {
    var left := bytes[RECEIVE_LIMIT..];
    assert left[|left|..] == "";
    assert Receives(left) == [left] + Receives("");
  }

  /** When the command fits but the line ends after it do not, the command is parsed as sent and the line ends
      become one more request, an empty one. */
  lemma LineEndsAreARequest(ts: seq<string>)
    requires ts != [] && |ts| <= INT_MAX && FitsInt(ts)
    requires RECEIVE_LIMIT < |OnTheWire(ts)| && ReceivedWhole(ts)
    ensures var requests := Receives(OnTheWire(ts));
      |requests| == 2 && ParseRequest(requests[0]) == Tokens(ts) && ParseRequest(requests[1]) == Tokens([])
  {
    hide ParseRequest;
    hide EncodeRequest;
    EndsInCrlf(ts);
    LineEndsAreBlank(EncodeRequest(ts), RECEIVE_LIMIT);
    TwoReceives(OnTheWire(ts));
    OneReceive(ts);
  }

  /** The tokens the first receive holds: some first ones, and all of them exactly when the command fits. */
  lemma PartReceived(ts: seq<string>) returns (k: nat)
    requires ts != [] && |ts| <= INT_MAX && FitsInt(ts)
    ensures k <= |ts| && ParseRequest(Received(OnTheWire(ts))) == Tokens(ts[..k])
    ensures k == |ts| <==> ReceivedWhole(ts)
  {
    hide ParseRequest;
    hide OnTheWire;
    hide WholeBulks;
    OneReceive(ts);
    k := WholeTokens(ts, |Received(OnTheWire(ts))|);
    assert ts[..k] == ts <==> k == |ts|;
  }

  // --------------------------------------------------------- a value there and back

  /** A cut SET is answered with an error and changes nothing. */
  lemma SetReceived(db: Db, tokens: seq<string>, now: int)
    requires Sendable(tokens) && |tokens| == 3 && ToUpper(tokens[0]) == "SET"
    ensures var line := Received(OnTheWire(tokens));
      Answerable(line) && Handle(db, line, now).Done? &&
      Handle(db, line, now).db ==
      if ReceivedWhole(tokens) then db.(kv := db.kv[tokens[1] := tokens[2]]) else db
  {
    hide ParseRequest;
    hide ToUpper;
    hide Received;
    hide OnTheWire;
    hide ReceivedWhole;
    SetMeans(tokens, now);
    var k := PartReceived(tokens);
    if k == 3 {
      assert tokens[..3] == tokens;
    } else {
      assert k > 0 ==> tokens[..k][0] == tokens[0];
    }
  }

  /** A whole GET is answered with the value, a cut one with an error. */
  lemma GetReceived(db: Db, tokens: seq<string>, get: Request, value: string)
    requires Sendable(tokens) && |tokens| == 2 && ToUpper(tokens[0]) == "GET"
    requires get.line == Received(OnTheWire(tokens))
    ensures AnswersWith(db, get, Value(value))
            <==> ReceivedWhole(tokens) && tokens[1] in db.kv && db.kv[tokens[1]] == value
  {
    hide ParseRequest;
    hide ToUpper;
    hide Received;
    hide OnTheWire;
    hide ReceivedWhole;
    GetMeans(tokens, get.now);
    var k := PartReceived(tokens);
    if k == 2 {
      assert tokens[..2] == tokens;
    } else {
      assert k > 0 ==> tokens[..k][0] == tokens[0];
    }
  }

  lemma ThreeBulks(ts: seq<string>)
    requires |ts| == 3
    ensures |EncodeRequest(ts)| == 4 + |Bulk(ts[0])| + |Bulk(ts[1])| + |Bulk(ts[2])|
  {
    hide Bulk;
    assert ts == [ts[0]] + [ts[1], ts[2]];
    BulksAppend([ts[0]], [ts[1], ts[2]]);
    OneBulk(ts[0]);
    TwoBulks(ts[1], ts[2]);
  }

  lemma TwoTokens(ts: seq<string>)
    requires |ts| == 2
    ensures |EncodeRequest(ts)| == 4 + |Bulk(ts[0])| + |Bulk(ts[1])|
  {
    hide Bulk;
    assert ts == [ts[0], ts[1]];
    TwoBulks(ts[0], ts[1]);
  }

  /** From any state: SET k v is sent, any requests follow of which none writes the string k, then GET k is sent.
      The server answers v exactly when the SET fits one receive (or k held v before and the GET fits). */
  lemma GetReturnsLastSet(db: Db, t: Tally, put: seq<string>, ask: seq<string>,
                                             first: Request, later: seq<Request>, last: Request, end: Db)
    requires Sendable(put) && |put| == 3 && ToUpper(put[0]) == "SET" && first.line == Received(OnTheWire(put))
    requires Sendable(ask) && |ask| == 2 && ToUpper(ask[0]) == "GET" && last.line == Received(OnTheWire(ask))
    requires ask[1] == put[1] && SparesString(later, put[1])
    requires Reaches(db, t, [first] + later, end)
    ensures AnswersWith(end, last, Value(put[2])) <==>
      ReceivedWhole(put) || (ReceivedWhole(ask) && put[1] in db.kv && db.kv[put[1]] == put[2])
  {
    hide ToUpper;
    hide Handle;
    hide OnTheWire;
    hide Received;
    hide EncodeRequest;
    hide Bulk;
    hide Charged;
    hide InDomain;
    hide AnswersWith;
    SetReceived(db, put, first.now);
    var o := Handle(db, first.line, first.now);
    assert ([first] + later)[1..] == later;
    StringKeptByRun(o.db, Charged(t, CountedName(first.line), o.marks, first.duration), later, put[1]);
    GetReceived(end, ask, last, put[2]);
    ReplyIsShorter(put, ask);
  }

  /** GET k and the reply with v are shorter than SET k v. */
  lemma ReplyIsShorter(put: seq<string>, ask: seq<string>)
    requires |put| == 3 && ToUpper(put[0]) == "SET" && |ask| == 2 && ToUpper(ask[0]) == "GET" && ask[1] == put[1]
    ensures |EncodeRequest(ask)| + |Bulk(put[2])| <= |EncodeRequest(put)|
    ensures |Bulk(put[2])| + 4 <= |EncodeRequest(put)|
  {
    hide ToUpper;
    hide EncodeRequest;
    hide Bulk;
    ThreeBulks(put);
    TwoTokens(ask);
    NameLength(put[0], ask[0]);
  }

  /** On a connection in step, whose commands were answered with these replies and end with that GET, the client
      is shown exactly v when the SET fits. */
  lemma GetShownInStep(db: Db, t: Tally, put: seq<string>, ask: seq<string>,
                       first: Request, later: seq<Request>, last: Request, end: Db,
                       commands: seq<seq<string>>, replies: seq<string>)
    requires Sendable(put) && |put| == 3 && ToUpper(put[0]) == "SET" && first.line == Received(OnTheWire(put))
    requires Sendable(ask) && |ask| == 2 && ToUpper(ask[0]) == "GET" && last.line == Received(OnTheWire(ask))
    requires ask[1] == put[1] && SparesString(later, put[1])
    requires Reaches(db, t, [first] + later, end) && ReceivedWhole(put)
    requires |replies| == |commands| > 0 && commands[|commands| - 1] == ask
    requires AllWithinReceive(Wires(commands)) && AllWithinReceive(replies)
    requires Answerable(last.line) && Handle(end, last.line, last.now).Done?
    requires Renders(Handle(end, last.line, last.now).reply, replies[|replies| - 1])
    ensures AllRequests(Wires(commands)) == Wires(commands)
    ensures Decode(Fetched("", replies)[|replies| - 1]) == Text(put[2])
  {
    hide ToUpper;
    hide Handle;
    hide OnTheWire;
    hide Received;
    hide ReceivedWhole;
    hide Reaches;
    hide SparesString;
    hide InDomain;
    hide Fetched;
    hide Decode;
    hide Wires;
    hide AllRequests;
    hide AllWithinReceive;
    hide Answerable;
    GetReturnsLastSet(db, t, put, ask, first, later, last, end);
    SendsNotEmpty(commands);
    OneRequestEach(Wires(commands));
    FetchedInStep(replies);
    assert replies[|replies| - 1] == Bulk(put[2]);
    ValueDecodes(put[2]);
  }

  lemma NameLength(s: string, s': string)
    requires ToUpper(s) == "SET" && ToUpper(s') == "GET"
    ensures |Bulk(s)| == |Bulk(s')|
  {
    assert |s| == 3 == |s'|;
  }

  // -------------------------------------------------------- the tail of a value

  /** Letters that fill the first receive up to its end. */
  function Filled(line: string): string {
    seq(4068, _ => 'x') + line
  }

  lemma FourDigitLength(n: nat)
    requires 1000 <= n < 10_000
    ensures |ToDecimal(n)| == 4
  {
    assert 100 <= n / 10 < 1000 && 10 <= n / 100 < 100 && 1 <= n / 1000 < 10;
    assert |ToDecimal(n / 1000)| == 1;
    assert |ToDecimal(n / 100)| == 2;
    assert |ToDecimal(n / 10)| == 3;
  }

  /** The bytes of a SET whose value is filled this way: the first receive ends where the line begins. */
  lemma FilledSet(line: string)
    requires 0 < |line| <= 4091
    ensures var bytes := OnTheWire(["SET", "k", Filled(line)]);
      |bytes| == RECEIVE_LIMIT + |line| + 4 && bytes[RECEIVE_LIMIT..] == line + CRLF + CRLF
  {
    var v := Filled(line);
    var put := ["SET", "k", v];
    FourDigitLength(|v|);
    ThreeBulks(put);
    EndsInCrlf(put);
    BulksSnoc(put, 2);
    assert put[..3] == put;
    var front := Header('*', 3) + Bulks(put[..2]) + Header('$', |v|);
    assert |front| == 27;
    assert OnTheWire(put) == front + (v + CRLF) + CRLF;
    hide OnTheWire;
    hide Header;
    assert (front + (v + CRLF) + CRLF)[RECEIVE_LIMIT..] == line + CRLF + CRLF;
  }

  /** Only the name and the key arrive whole. */
  lemma FilledSetPart(line: string)
    requires 0 < |line| <= 4091
    ensures ParseRequest(Received(OnTheWire(["SET", "k", Filled(line)]))) == Tokens(["SET", "k"])
  {
    hide ParseRequest;
    var v := Filled(line);
    var put := ["SET", "k", v];
    FilledSet(line);
    OneReceive(put);
    WholeTokensByPosition(put, RECEIVE_LIMIT, 1);
    WholeTokensByPosition(put, RECEIVE_LIMIT, 2);
    assert put[..3] == put;
    assert put[..2] == ["SET", "k"];
    TwoTokens(["SET", "k"]);
  }

  lemma ShortSet(db: Db, now: int, line: string)
    requires ParseRequest(line) == Tokens(["SET", "k"])
    ensures Answerable(line)
    ensures Handle(db, line, now) == Done(db, Failure(UsageText(SET, "SET")), [false])
  {
    hide ParseRequest;
    assert ToUpper("SET") == "SET";
  }

  /** A value too long for one receive is not stored, and its tail is a request of its own: any inline command
      can stand there, and it is answered as if it had been sent. */
  lemma TailIsARequest(db: Db, seps: seq<string>, ts: seq<string>, now: int)
    requires |seps| == |ts| && Separators(seps) && ts != [] && AllWords(ts) && InDomain(ts)
    requires seps[0] != "" || ts[0][0] != '*'
    requires |Interleave(seps, ts)| <= 4091
    ensures var requests := Receives(OnTheWire(["SET", "k", Filled(Interleave(seps, ts))]));
      && |requests| == 2 && Answerable(requests[0]) && Answerable(requests[1])
      && Handle(db, requests[0], now) == Done(db, Failure(UsageText(SET, "SET")), [false])
      && Handle(db, requests[1], now) == Apply(db, Interpret(ts, now))
  {
    hide ParseRequest;
    hide Apply;
    hide Interpret;
    hide InDomain;
    hide OnTheWire;
    hide Separators;
    hide UsageText;
    var line := Interleave(seps, ts);
    LineNotEmpty(seps, ts);
    FilledSet(line);
    FilledSetPart(line);
    TwoReceives(OnTheWire(["SET", "k", Filled(line)]));
    ShortSet(db, now, Received(OnTheWire(["SET", "k", Filled(line)])));
    assert line + CRLF + CRLF == line + (CRLF + CRLF);
    InlineParses(seps, ts, CRLF + CRLF);
  }

  lemma LineNotEmpty(seps: seq<string>, ts: seq<string>)
    requires |seps| == |ts| && ts != [] && AllWords(ts)
    ensures Interleave(seps, ts) != ""
  {
    assert Word(ts[0]);
  }
}
