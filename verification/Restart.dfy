/** Snapshots and restarts: the server as a step system over its stores and its dump file. */
module Restarts {
  import opened Bytes
  import opened Decimal
  import opened Store
  import opened Persistence
  import opened Commands
  import opened RequestCodec
  import L = Lists
  import A = Accounts
  import D = Dispatch

  /** The stores, the dump file, and which stores that file was made from; None while the file is still the one
      the first process found. */
  datatype World = World(db: Db, file: Option<string>, snapshot: Option<Db>)

  /** A request answered, a dump written in some walk order, or the end of the process (shutdown, crash or an
      exception) followed by a new start. */
  datatype Event = Request(line: string, now: int) | Dump(listing: Listing) | Restart(junk: Junk)

  /** `load` in a fresh process; without a file the stores stay empty. */
  function Booted(file: Option<string>, junk: Junk): Db {
    if file.Some? then Loaded(EMPTY, file.value, junk) else EMPTY
  }

  ghost predicate Step(w: World, e: Event, w': World) {
    match e
    case Request(line, now) =>
      Answerable(line) && Handle(w.db, line, now).Done? && w' == w.(db := Handle(w.db, line, now).db)
    case Dump(listing) =>
      Lists(listing, w.db) && w' == w.(file := Some(DumpText(listing)), snapshot := Some(w.db))
    case Restart(junk) => w' == w.(db := Booted(w.file, junk))
  }

  /** A freshly started server, with any file or none. */
  ghost predicate Started(w: World) {
    w.snapshot == None && exists junk :: w.db == Booted(w.file, junk)
  }

  ghost predicate Steps(ws: seq<World>, es: seq<Event>) {
    && |ws| == |es| + 1
    && forall i :: 0 <= i < |es| ==> Step(ws[i], es[i], ws[i + 1])
  }

  ghost predicate Trace(ws: seq<World>, es: seq<Event>) {
    Steps(ws, es) && Started(ws[0])
  }

  lemma OneMoreStep(ws: seq<World>, es: seq<Event>, e: Event, w: World)
    requires Steps(ws, es) && Step(ws[|es|], e, w)
    ensures Steps(ws + [w], es + [e])
  {
    hide Step;
    var ws', es' := ws + [w], es + [e];
    forall i | 0 <= i < |es'|
      ensures Step(ws'[i], es'[i], ws'[i + 1])
    {
      assert i < |es| ==> Step(ws[i], es[i], ws[i + 1]);
    }
  }

  /** The three stores survive, the deadlines do not. */
  function Recovered(db: Db): Db {
    db.(expiry := map[])
  }

  /** The file loads to its snapshot exactly when the snapshot is representable; without a snapshot it is the
      file found first. */
  ghost predicate FileHoldsSnapshot(found: Option<string>, w: World) {
    match w.snapshot
    case None => w.file == found
    case Some(db) =>
      w.file.Some? && forall junk :: Booted(w.file, junk) == Recovered(db) <==> Representable(db)
  }

  lemma StepHoldsSnapshot(found: Option<string>, w: World, e: Event, w': World)
    requires FileHoldsSnapshot(found, w) && Step(w, e, w')
    ensures FileHoldsSnapshot(found, w')
  {
    hide Handle;
    hide Loaded;
    match e
    case Dump(listing) =>
      forall junk
        ensures Booted(w'.file, junk) == Recovered(w.db) <==> Representable(w.db)
      {
        RoundTripIffRepresentable(listing, w.db, EMPTY, junk);
      }
    case _ =>
  }

  lemma {:induction false} TraceHoldsSnapshot(ws: seq<World>, es: seq<Event>, i: nat)
    requires Trace(ws, es) && i < |ws|
    ensures FileHoldsSnapshot(ws[0].file, ws[i])
  {
    hide Step;
    if i == 0 {
    } else {
      hide FileHoldsSnapshot;
      TraceHoldsSnapshot(ws, es, i - 1);
      StepHoldsSnapshot(ws[0].file, ws[i - 1], es[i - 1], ws[i]);
    }
  }

  /** A file without blank lines loads to the same stores every time. */
  lemma {:induction false} SameBoot(lines: seq<string>, db: Db, junk: Junk, other: Junk)
    requires NoneBlank(lines)
    ensures LoadLines(db, lines, junk) == LoadLines(db, lines, other)
  {
    hide LoadLine;
    if lines == [] {
    } else {
      var n := |lines| - 1;
      SameBoot(lines[..n], db, junk, other);
      NoJunkRead(LoadLines(db, lines[..n], junk), lines[n], junk(n), other(n));
    }
  }

  /** In every trace a restart brings back the three stores of the last snapshot, whatever happened after it,
      exactly when that snapshot was representable. With no snapshot yet it loads the file found first, and
      comes back to the first state unless that file has a blank line. */
  lemma RestartRecoversSnapshot(ws: seq<World>, es: seq<Event>, i: nat)
    requires Trace(ws, es) && i < |es| && es[i].Restart?
    ensures match ws[i].snapshot
            case Some(db) => ws[i + 1].db == Recovered(db) <==> Representable(db)
            case None =>
              ws[i + 1].db == Booted(ws[0].file, es[i].junk) &&
              (ws[0].file.Some? && NoneBlank(Lines(ws[0].file.value)) ==> ws[i + 1].db == ws[0].db)
  {
    TraceHoldsSnapshot(ws, es, i);
    assert Step(ws[i], es[i], ws[i + 1]);
    var file := ws[0].file;
    if file.Some? && NoneBlank(Lines(file.value)) {
      var junk :| ws[0].db == Booted(file, junk);
      SameBoot(Lines(file.value), Flushed(EMPTY), junk, es[i].junk);
    }
  }

  /** From a moment the file was a snapshot of, the file stays the snapshot of that moment or a later one. */
  lemma {:induction false} SnapshotStaysRecent(ws: seq<World>, es: seq<Event>, i: nat, j: nat) returns (k: nat)
    requires Steps(ws, es) && i <= j < |ws| && ws[i].snapshot == Some(ws[i].db)
    ensures i <= k <= j && ws[j].snapshot == Some(ws[k].db)
  {
    hide Handle;
    if i == j {
      k := i;
    } else {
      k := SnapshotStaysRecent(ws, es, i, j - 1);
      assert Step(ws[j - 1], es[j - 1], ws[j]);
      if es[j - 1].Dump? {
        k := j - 1;
      }
    }
  }

  /** So whenever the process ends after a dump, a restart brings back the state of that dump or of a later
      moment, if it was representable: only what came after that moment is lost. */
  lemma LosesOnlyTheLatest(ws: seq<World>, es: seq<Event>, i: nat, j: nat, junk: Junk) returns (k: nat)
    requires Trace(ws, es) && i <= j < |ws| && ws[i].snapshot == Some(ws[i].db)
    ensures i <= k <= j
    ensures Booted(ws[j].file, junk) == Recovered(ws[k].db) <==> Representable(ws[k].db)
  {
    hide Booted;
    hide Representable;
    hide Started;
    k := SnapshotStaysRecent(ws, es, i, j);
    TraceHoldsSnapshot(ws, es, j);
  }

  // --------------------------------------------------------- plain sessions

  /** Commands that cannot take a database out of the class a dump file can carry. */
  ghost predicate PlainCommand(c: Command) {
    match c
    case Set(key, value) => Plain(key) && Plain(value) && (key == "" ==> value == "")
    case Rename(oldKey, newKey) => oldKey == newKey || !Plain(oldKey) || Word(newKey)
    case OnList(key, op) => PlainListOp(key, op)
    case OnHash(key, op) => PlainHashOp(key, op)
    case _ => true
  }

  predicate PlainListOp(key: string, op: ListOp) {
    LeavesListMissing(op) || (Plain(key) && PlainListArguments(key, op))
  }

  predicate PlainListArguments(key: string, op: ListOp) {
    match op
    case LSet(index, value) => key == "" || index < 0 || Word(value)
    case LPush(values) => AllWords(values) && (key == "" ==> values == [])
    case RPush(values) => AllWords(values) && (key == "" ==> values == [])
    case _ => true
  }

  ghost predicate PlainHashOp(key: string, op: HashOp) {
    LeavesHashMissing(op) || (Plain(key) && PlainHashArguments(key, op))
  }

  /** Of several pairs naming one field only the last one counts. */
  ghost predicate PlainHashArguments(key: string, op: HashOp) {
    match op
    case HSet(field, value) => key != "" && Plain(field) && NoColon(field) && Plain(value)
    case HMSet(pairs) => key != "" && PlainFields(SetAll(map[], pairs))
    case _ => true
  }

  lemma ListStepPlain(key: string, list: seq<string>, op: ListOp)
    requires AllWords(list) && (key == "" ==> list == []) && (LeavesListMissing(op) || PlainListArguments(key, op))
    ensures AllWords(ListStep(list, op).list) && (key == "" ==> ListStep(list, op).list == [])
  {
    match op
    case LPush(values) => ReversePlain(values);
    case LRem(count, value) => RemovePlain(list, count, value);
    case _ =>
  }

  lemma ReversePlain(values: seq<string>)
    ensures AllWords(L.Reverse(values)) <==> AllWords(values)
  {
    A.ReverseWithin(values);
    A.ReverseWithin(L.Reverse(values));
    L.ReverseTwice(values);
    assert forall i :: 0 <= i < |values| ==> L.Reverse(values)[i] in values && values[i] in L.Reverse(values);
  }

  lemma RemovePlain(list: seq<string>, count: int, value: string)
    requires AllWords(list)
    ensures AllWords(L.Remove(list, count, value)) && (list == [] ==> L.Remove(list, count, value) == [])
  {
    if count >= 0 {
      A.RemoveFirstWithin(list, count, value);
    } else {
      A.RemoveLastWithin(list, -count, value);
    }
    var kept := L.Remove(list, count, value);
    assert forall i :: 0 <= i < |kept| ==> kept[i] in list;
  }

  /** HMSET lays its own fields over the old ones. */
  lemma {:induction false} SetAllOverlays(hash: Fields, pairs: seq<(string, string)>)
    ensures SetAll(hash, pairs) == hash + SetAll(map[], pairs)
  {
    if pairs == [] {
    } else {
      SetAllOverlays(hash, pairs[..|pairs| - 1]);
    }
  }

  lemma SetAllPlain(hash: Fields, pairs: seq<(string, string)>)
    requires PlainFields(hash) && PlainFields(SetAll(map[], pairs))
    ensures PlainFields(SetAll(hash, pairs))
  {
    SetAllOverlays(hash, pairs);
  }

  lemma HashStepPlain(key: string, hash: Fields, op: HashOp)
    requires PlainFields(hash) && (key == "" ==> hash == map[])
    requires LeavesHashMissing(op) || PlainHashArguments(key, op)
    ensures PlainFields(HashStep(hash, op).0) && (key == "" ==> HashStep(hash, op).0 == map[])
  {
    if op.HMSet? && op.pairs != [] {
      SetAllPlain(hash, op.pairs);
    }
  }

  lemma MovedPlain(db: Db, a: string, b: string)
    requires Representable(db) && (a == b || !Plain(a) || Word(b))
    ensures Representable(Renamed(db, a, b))
  {
    assert PlainStrings(Moved(db.kv, a, b));
    assert PlainLists(Moved(db.lists, a, b));
    assert PlainHashes(Moved(db.hashes, a, b));
  }

  lemma DeletedPlain(db: Db, key: string)
    requires Representable(db)
    ensures Representable(Deleted(db, key))
  {
    assert PlainStrings(db.kv - {key});
    assert PlainLists(db.lists - {key});
    assert PlainHashes(db.hashes - {key});
  }

  lemma EmptyIsRepresentable(db: Db)
    ensures Representable(Flushed(db))
  {
  }

  lemma ApplyKeepsRepresentable(db: Db, c: Command)
    requires Representable(db) && PlainCommand(c) && Apply(db, c).Done?
    ensures Representable(Apply(db, c).db)
  {
    hide ListStep;
    hide HashStep;
    hide PlainStrings;
    hide PlainLists;
    hide PlainHashes;
    hide PlainListArguments;
    hide PlainHashArguments;
    match c
    case Set(key, value) => PutStringPlain(db.kv, key, value);
    case FlushAll => EmptyIsRepresentable(db);
    case Del(key) => DeletedPlain(db, key);
    case Rename(oldKey, newKey) => MovedPlain(db, oldKey, newKey);
    case OnList(key, op) =>
      if key in db.lists || !LeavesListMissing(op) {
        ListIsPlain(db, key);
        ListStepPlain(key, ListAt(db, key), op);
        PutListPlain(db.lists, key, ListStep(ListAt(db, key), op).list);
      }
    case OnHash(key, op) =>
      if key in db.hashes || !LeavesHashMissing(op) {
        HashIsPlain(db, key);
        HashStepPlain(key, HashAt(db, key), op);
        PutHashPlain(db.hashes, key, HashStep(HashAt(db, key), op).0);
      }
    case _ =>
  }

  lemma ListIsPlain(db: Db, key: string)
    requires Representable(db)
    ensures AllWords(ListAt(db, key)) && (key == "" ==> ListAt(db, key) == [])
    ensures key in db.lists ==> Plain(key)
  {
  }

  lemma HashIsPlain(db: Db, key: string)
    requires Representable(db)
    ensures PlainFields(HashAt(db, key)) && (key == "" ==> HashAt(db, key) == map[])
    ensures key in db.hashes ==> Plain(key)
  {
  }

  /** From every representable database the command leads to a representable one. */
  ghost predicate Preserves(c: Command) {
    forall db :: Representable(db) && Apply(db, c).Done? ==> Representable(Apply(db, c).db)
  }

  /** The plain commands are exactly those that never leave the class of databases a dump file can carry. */
  lemma PreservesExactly(c: Command)
    ensures Preserves(c) <==> PlainCommand(c)
  {
    hide Apply;
    hide Representable;
    hide PlainCommand;
    if PlainCommand(c) {
      forall db | Representable(db) && Apply(db, c).Done?
        ensures Representable(Apply(db, c).db)
      {
        ApplyKeepsRepresentable(db, c);
      }
    } else {
      var db := LeavesClass(c);
    }
  }

  /** A representable database that a command which is not plain spoils. */
  lemma LeavesClass(c: Command) returns (db: Db)
    requires !PlainCommand(c)
    ensures Representable(db) && Apply(db, c).Done? && !Representable(Apply(db, c).db)
  {
    match c
    case Set(key, value) =>
      db := EMPTY;
      assert key in Apply(db, c).db.kv;
    case Rename(oldKey, newKey) =>
      db := EMPTY.(kv := map[oldKey := if oldKey == "" then "" else "x"]);
      assert newKey in Apply(db, c).db.kv;
    case OnList(key, op) =>
      db := if op.LSet? && key != "" && op.index >= 0 && Plain(key)
            then PutList(EMPTY, key, seq(op.index + 1, _ => "x")) else EMPTY;
      ListLeavesClass(db, key, op);
    case OnHash(key, op) =>
      db := EMPTY;
      HashLeavesClass(key, op);
  }

  lemma ListLeavesClass(db: Db, key: string, op: ListOp)
    requires !PlainListOp(key, op)
    requires db == if op.LSet? && key != "" && op.index >= 0 && Plain(key)
                   then PutList(EMPTY, key, seq(op.index + 1, _ => "x")) else EMPTY
    ensures Representable(db) && !Representable(ApplyList(db, key, op).db)
  {
    var after := ApplyList(db, key, op).db;
    assert key in after.lists;
    if Plain(key) {
      match op
      case LSet(index, value) => assert after.lists[key][index] == value;
      case LPush(values) =>
        ReversePlain(values);
        assert L.Reverse(values) + [] == L.Reverse(values) == after.lists[key];
      case RPush(values) => assert [] + values == values == after.lists[key];
    }
  }

  lemma HashLeavesClass(key: string, op: HashOp)
    requires !PlainHashOp(key, op)
    ensures Representable(EMPTY) && !Representable(ApplyHash(EMPTY, key, op).db)
  {
    var after := ApplyHash(EMPTY, key, op).db;
    assert key in after.hashes;
    if Plain(key) {
      match op
      case HSet(field, value) => assert field in after.hashes[key];
      case HMSet(pairs) => assert pairs[|pairs| - 1].0 in after.hashes[key];
    }
  }

  ghost predicate PlainEvent(e: Event) {
    e.Request? ==>
      match ParseRequest(e.line)
      case Tokens(tokens) => tokens != [] && InDomain(tokens) ==> PlainCommand(Interpret(tokens, e.now))
      case _ => true
  }

  lemma StepKeepsRepresentable(w: World, e: Event, w': World)
    requires Representable(w.db) && Step(w, e, w') && PlainEvent(e)
    ensures Representable(w'.db)
  {
    hide Apply;
    hide Interpret;
    hide ParseRequest;
    hide Representable;
    hide PlainCommand;
    match e
    case Request(line, now) =>
      var tokens := ParseRequest(line).tokens;
      if tokens != [] {
        ApplyKeepsRepresentable(w.db, Interpret(tokens, now));
      }
    case Dump(listing) =>
    case Restart(junk) => BootedIsRepresentable(w.file, junk);
  }

  lemma BootedIsRepresentable(file: Option<string>, junk: Junk)
    ensures Representable(Booted(file, junk))
  {
    hide Representable;
    if file.Some? {
      LoadedIsRepresentable(EMPTY, file.value, junk);
    } else {
      EmptyIsRepresentable(EMPTY);
    }
  }

  /** Along a trace of plain requests every state is representable, and so is every snapshot. */
  lemma {:induction false} PlainTraceRepresentable(ws: seq<World>, es: seq<Event>, i: nat)
    requires Trace(ws, es) && i < |ws|
    requires forall j :: 0 <= j < |es| ==> PlainEvent(es[j])
    ensures Representable(ws[i].db)
    ensures ws[i].snapshot.Some? ==> Representable(ws[i].snapshot.value)
  {
    hide Representable;
    hide Booted;
    hide PlainEvent;
    if i == 0 {
      var junk :| ws[0].db == Booted(ws[0].file, junk);
      BootedIsRepresentable(ws[0].file, junk);
    } else {
      PlainTraceRepresentable(ws, es, i - 1);
      assert Step(ws[i - 1], es[i - 1], ws[i]);
      StepKeepsRepresentable(ws[i - 1], es[i - 1], ws[i]);
    }
  }

  /** With plain requests the server can be restarted at any moment, and the restart brings back the three
      stores of the last snapshot exactly. */
  lemma PlainSessionsSurvive(ws: seq<World>, es: seq<Event>, i: nat, junk: Junk)
    requires Trace(ws, es) && i < |ws| && ws[i].snapshot.Some?
    requires forall j :: 0 <= j < |es| ==> PlainEvent(es[j])
    ensures Booted(ws[i].file, junk) == Recovered(ws[i].snapshot.value)
  {
    hide Booted;
    hide Representable;
    PlainTraceRepresentable(ws, es, i);
    TraceHoldsSnapshot(ws, es, i);
  }

  // --------------------------------------------------------- inline sessions

  /** No field that an HSET or HMSET would store holds a colon. */
  predicate FieldsWithoutColon(tokens: seq<string>)
    requires tokens != []
  {
    var name := NameOf(ToUpper(tokens[0]));
    (name == Some(HSET) && |tokens| >= 4 ==> NoColon(tokens[2])) &&
    (name == Some(HMSET) && |tokens| >= 4 ==>
      forall i :: 2 <= i < |tokens| && i % 2 == 0 ==> NoColon(tokens[i]))
  }

  /** Every field named by a pair ends up set. */
  lemma {:induction false} FieldIsSet(hash: Fields, pairs: seq<(string, string)>, i: nat)
    requires i < |pairs|
    ensures pairs[i].0 in SetAll(hash, pairs)
  {
    if i == |pairs| - 1 {
    } else {
      FieldIsSet(hash, pairs[..|pairs| - 1], i);
    }
  }

  /** Every field set and its value come from some pair. */
  lemma {:induction false} SetFieldsPlain(pairs: seq<(string, string)>)
    requires PlainPairs(pairs)
    ensures PlainFields(SetAll(map[], pairs))
  {
    if pairs == [] {
    } else {
      SetFieldsPlain(pairs[..|pairs| - 1]);
    }
  }

  /** Pairs of words make plain fields exactly when no field has a colon. */
  lemma {:induction false} PairsPlainIff(tokens: seq<string>)
    requires |tokens| % 2 == 0 && |tokens| >= 4 && AllWords(tokens)
    ensures PlainFields(SetAll(map[], PairsOf(tokens)))
            <==> forall i :: 2 <= i < |tokens| && i % 2 == 0 ==> NoColon(tokens[i])
  {
    hide PairsOf;
    hide Plain;
    hide NoColon;
    var pairs := PairsOf(tokens);
    if PlainFields(SetAll(map[], pairs)) {
      forall i | 2 <= i < |tokens| && i % 2 == 0
        ensures NoColon(tokens[i])
      {
        D.PairAt(tokens, i / 2 - 1);
        FieldIsSet(map[], pairs, i / 2 - 1);
      }
    } else if forall i :: 2 <= i < |tokens| && i % 2 == 0 ==> NoColon(tokens[i]) {
      D.PairAt(tokens, 0);
      forall i | 0 <= i < |pairs|
        ensures Plain(pairs[i].0) && NoColon(pairs[i].0) && Plain(pairs[i].1)
      {
        D.PairAt(tokens, i);
        assert Word(tokens[2 * i + 2]) && Word(tokens[2 * i + 3]);
      }
      SetFieldsPlain(pairs);
    }
  }

  /** Tokens split at whitespace, as inline requests and the command-line client make them, give a plain command
      exactly when no stored hash field holds a colon. */
  lemma SplitTokensArePlainIff(tokens: seq<string>, now: int)
    requires tokens != [] && InDomain(tokens) && AllWords(tokens)
    ensures PlainCommand(Interpret(tokens, now)) <==> FieldsWithoutColon(tokens)
  {
    hide NameOf;
    hide ToUpper;
    hide Stoi;
    hide Word;
    hide Plain;
    hide AllWords;
    hide NoColon;
    hide SetAll;
    hide PlainFields;
    var name := NameOf(ToUpper(tokens[0]));
    WordsApart(tokens);
    if name == Some(HMSET) && |tokens| >= 4 {
      PairsPlainIff(tokens);
      D.PairAt(tokens, 0);
    }
  }

  lemma WordsApart(tokens: seq<string>)
    requires AllWords(tokens)
    ensures |tokens| > 1 ==> Word(tokens[1]) && Plain(tokens[1]) && tokens[1] != ""
    ensures |tokens| > 2 ==> Word(tokens[2]) && Plain(tokens[2]) && AllWords(tokens[2..])
    ensures |tokens| > 3 ==> Word(tokens[3]) && Plain(tokens[3])
  {
  }

  /** A request in the inline framing that stores no hash field with a colon. */
  predicate InlineWithoutColon(line: string) {
    && (line == "" || line[0] != '*')
    && (Words(line) != [] && InDomain(Words(line)) ==> FieldsWithoutColon(Words(line)))
  }

  /** Whatever bytes inline requests are made of, as long as no stored hash field holds a colon, the server can
      be restarted at any moment and comes back with the three stores of the last snapshot. */
  lemma InlineSessionsSurvive(ws: seq<World>, es: seq<Event>, i: nat, junk: Junk)
    requires Trace(ws, es) && i < |ws| && ws[i].snapshot.Some?
    requires forall j :: 0 <= j < |es| && es[j].Request? ==> InlineWithoutColon(es[j].line)
    ensures Booted(ws[i].file, junk) == Recovered(ws[i].snapshot.value)
  {
    hide Booted;
    hide Trace;
    hide Interpret;
    forall j | 0 <= j < |es|
      ensures PlainEvent(es[j])
    {
      if es[j].Request? {
        InlineIsPlain(es[j]);
      }
    }
    PlainSessionsSurvive(ws, es, i, junk);
  }

  lemma InlineIsPlain(e: Event)
    requires e.Request? && InlineWithoutColon(e.line)
    ensures PlainEvent(e)
  {
    hide Interpret;
    hide PlainCommand;
    hide FieldsWithoutColon;
    var tokens := Words(e.line);
    WordsOfBlank("");
    WordsAreWords(e.line);
    if tokens != [] && InDomain(tokens) {
      SplitTokensArePlainIff(tokens, e.now);
    }
  }
}
