/** Runs of commands, and the laws that speak of whole runs. */
module Runs {
  import opened Store
  import opened Commands

  /** All replies and the last state, or the crash of the first command that throws. */
  datatype RunResult = Ran(db: Db, replies: seq<Reply>) | Crashed

  function After(reply: Reply, r: RunResult): RunResult {
    if r.Ran? then Ran(r.db, [reply] + r.replies) else r
  }

  function Run(db: Db, cs: seq<Command>): RunResult
    decreases |cs|
  {
    if cs == [] then Ran(db, [])
    else
      match Apply(db, cs[0])
      case Throws => Crashed
      case Done(db', reply, _) => After(reply, Run(db', cs[1..]))
  }

  lemma {:induction false} RunLength(db: Db, cs: seq<Command>)
    requires Run(db, cs).Ran?
    ensures |Run(db, cs).replies| == |cs|
    decreases |cs|
  {
    hide Apply;
    if cs == [] {
    } else {
      RunLength(Apply(db, cs[0]).db, cs[1..]);
    }
  }

  /** One run after another. */
  function Then(x: RunResult, cs: seq<Command>): RunResult {
    if x.Crashed? then Crashed
    else
      match Run(x.db, cs)
      case Crashed => Crashed
      case Ran(db, replies) => Ran(db, x.replies + replies)
  }

  lemma {:induction false} RunAppend(db: Db, a: seq<Command>, b: seq<Command>)
    ensures Run(db, a + b) == Then(Run(db, a), b)
    decreases |a|
  {
    hide Apply;
    if a == [] {
      assert a + b == b;
    } else {
      assert (a + b)[1..] == a[1..] + b;
      match Apply(db, a[0])
      case Throws =>
      case Done(db', reply, _) =>
        RunAppend(db', a[1..], b);
        AfterThen(reply, Run(db', a[1..]), b);
    }
  }

  lemma AfterThen(reply: Reply, x: RunResult, cs: seq<Command>)
    ensures After(reply, Then(x, cs)) == Then(After(reply, x), cs)
  {
    hide Run;
    if x.Ran? && Run(x.db, cs).Ran? {
      assert [reply] + (x.replies + Run(x.db, cs).replies) == ([reply] + x.replies) + Run(x.db, cs).replies;
    }
  }

  /** Deadlines never matter: nothing compares them with the clock, so replies and stores are the same whatever
      the expiry map holds. */
  lemma {:induction false} DeadlinesNeverMatter(db: Db, deadlines: map<string, int>, cs: seq<Command>)
    ensures match (Run(db, cs), Run(db.(expiry := deadlines), cs))
            case (Ran(a, rs), Ran(b, rs')) => rs == rs' && b == a.(expiry := b.expiry)
            case (Crashed, Crashed) => true
            case _ => false
    decreases |cs|
  {
    hide Apply;
    if cs == [] {
    } else {
      DeadlineFree(db, deadlines, cs[0]);
      if Apply(db, cs[0]).Done? {
        var a, b := Apply(db, cs[0]).db, Apply(db.(expiry := deadlines), cs[0]).db;
        assert b == a.(expiry := b.expiry);
        DeadlinesNeverMatter(a, b.expiry, cs[1..]);
      }
    }
  }

  lemma DeadlineFree(db: Db, deadlines: map<string, int>, c: Command)
    ensures var x, y := Apply(db, c), Apply(db.(expiry := deadlines), c);
      x.Done? == y.Done? &&
      (x.Done? ==> x.reply == y.reply && x.marks == y.marks && y.db == x.db.(expiry := y.db.expiry))
  {
    hide ListStep;
    hide HashStep;
  }
}

/** Entries that `operator[]` creates are invisible to the data commands. */
module Equivalence {
  import opened Store
  import opened Commands
  import opened Runs
  import L = Lists

  /** Equal when a missing list or hash counts as empty; deadlines do not matter. */
  ghost predicate Alike(a: Db, b: Db) {
    && a.kv == b.kv
    && (forall k :: ListAt(a, k) == ListAt(b, k))
    && (forall k :: HashAt(a, k) == HashAt(b, k))
  }

  /** Commands that can tell a missing entry from an empty one. */
  predicate TellsEmptyFromMissing(c: Command) {
    match c
    case Type(_) => true
    case Keys => true
    case Del(_) => true
    case Expire(_, _, _) => true
    case Rename(oldKey, newKey) => oldKey != newKey
    case _ => false
  }

  /** The same reply, and states still alike. */
  ghost predicate SameOutcome(x: Outcome, y: Outcome) {
    match (x, y)
    case (Done(a, r, m), Done(b, r', m')) => r == r' && m == m' && Alike(a, b)
    case (Throws, Throws) => true
    case _ => false
  }

  ghost predicate Respects(c: Command) {
    forall a, b :: Alike(a, b) ==> SameOutcome(Apply(a, c), Apply(b, c))
  }

  lemma PutListAlike(a: Db, b: Db, key: string, list: seq<string>)
    requires Alike(a, b)
    ensures Alike(PutList(a, key, list), PutList(b, key, list))
  {
    forall k
      ensures ListAt(PutList(a, key, list), k) == ListAt(PutList(b, key, list), k)
      ensures HashAt(PutList(a, key, list), k) == HashAt(PutList(b, key, list), k)
    {
      assert ListAt(a, k) == ListAt(b, k) && HashAt(a, k) == HashAt(b, k);
    }
  }

  lemma PutHashAlike(a: Db, b: Db, key: string, hash: Fields)
    requires Alike(a, b)
    ensures Alike(PutHash(a, key, hash), PutHash(b, key, hash))
  {
    forall k
      ensures ListAt(PutHash(a, key, hash), k) == ListAt(PutHash(b, key, hash), k)
      ensures HashAt(PutHash(a, key, hash), k) == HashAt(PutHash(b, key, hash), k)
    {
      assert ListAt(a, k) == ListAt(b, k) && HashAt(a, k) == HashAt(b, k);
    }
  }

  /** Storing back what is there changes nothing visible. */
  lemma RePutAlike(a: Db, key: string)
    ensures Alike(PutList(a, key, ListAt(a, key)), a)
    ensures Alike(PutHash(a, key, HashAt(a, key)), a)
  {
  }

  lemma SelfRenameAlike(a: Db, b: Db, key: string)
    requires Alike(a, b)
    ensures Alike(Renamed(a, key, key), Renamed(b, key, key))
  {
    forall k
      ensures ListAt(Renamed(a, key, key), k) == if k == key then [] else ListAt(a, k)
      ensures ListAt(Renamed(b, key, key), k) == if k == key then [] else ListAt(b, k)
      ensures HashAt(Renamed(a, key, key), k) == if k == key then map[] else HashAt(a, k)
      ensures HashAt(Renamed(b, key, key), k) == if k == key then map[] else HashAt(b, k)
    {
    }
  }

  lemma ApplyAlike(a: Db, b: Db, c: Command)
    requires Alike(a, b) && !TellsEmptyFromMissing(c)
    ensures SameOutcome(Apply(a, c), Apply(b, c))
  {
    hide Alike;
    AlikeAt(a, b, "");
    match c
    case Set(key, value) => SetAlike(a, b, key, value);
    case Rename(oldKey, newKey) => SelfRenameAlike(a, b, oldKey);
    case FlushAll => FlushAlike(a, b);
    case OnList(key, op) => ListCommandAlike(a, b, key, op);
    case OnHash(key, op) => HashCommandAlike(a, b, key, op);
    case _ =>
  }

  /** LREM leaves a missing list missing, which looks like storing the empty result. */
  lemma ListCommandAlike(a: Db, b: Db, key: string, op: ListOp)
    requires Alike(a, b)
    ensures SameOutcome(ApplyList(a, key, op), ApplyList(b, key, op))
  {
    hide Alike;
    hide ListStep;
    AlikeAt(a, b, key);
    var list := ListStep(ListAt(a, key), op).list;
    PutListAlike(a, b, key, list);
    StoredList(a, key, op);
    StoredList(b, key, op);
    AlikeChain(ApplyList(a, key, op).db, PutList(a, key, list), PutList(b, key, list), ApplyList(b, key, op).db);
  }

  lemma StoredList(db: Db, key: string, op: ListOp)
    ensures Alike(ApplyList(db, key, op).db, PutList(db, key, ListStep(ListAt(db, key), op).list))
  {
    if key !in db.lists && LeavesListMissing(op) {
      L.RemoveIsPositional([], op.count, op.value);
      assert L.Remove([], op.count, op.value) == [];
      RePutAlike(db, key);
      AlikeChain(db, db, PutList(db, key, []), PutList(db, key, []));
    }
  }

  lemma HashCommandAlike(a: Db, b: Db, key: string, op: HashOp)
    requires Alike(a, b)
    ensures SameOutcome(ApplyHash(a, key, op), ApplyHash(b, key, op))
  {
    hide Alike;
    hide HashStep;
    AlikeAt(a, b, key);
    var hash := HashStep(HashAt(a, key), op).0;
    PutHashAlike(a, b, key, hash);
    StoredHash(a, key, op);
    StoredHash(b, key, op);
    AlikeChain(ApplyHash(a, key, op).db, PutHash(a, key, hash), PutHash(b, key, hash), ApplyHash(b, key, op).db);
  }

  lemma StoredHash(db: Db, key: string, op: HashOp)
    ensures Alike(ApplyHash(db, key, op).db, PutHash(db, key, HashStep(HashAt(db, key), op).0))
  {
    if key !in db.hashes && LeavesHashMissing(op) {
      assert HashStep(map[], op).0 == map[];
      RePutAlike(db, key);
      AlikeChain(db, db, PutHash(db, key, map[]), PutHash(db, key, map[]));
    }
  }

  lemma AlikeChain(a: Db, b: Db, c: Db, d: Db)
    requires Alike(a, b) || Alike(b, a)
    requires Alike(b, c) || Alike(c, b)
    requires Alike(c, d) || Alike(d, c)
    ensures Alike(a, d)
  {
  }

  lemma AlikeAt(a: Db, b: Db, key: string)
    requires Alike(a, b)
    ensures a.kv == b.kv && ListAt(a, key) == ListAt(b, key) && HashAt(a, key) == HashAt(b, key)
  {
  }

  lemma SetAlike(a: Db, b: Db, key: string, value: string)
    requires Alike(a, b)
    ensures Alike(a.(kv := a.kv[key := value]), b.(kv := b.kv[key := value]))
  {
    var a', b' := a.(kv := a.kv[key := value]), b.(kv := b.kv[key := value]);
    forall k
      ensures ListAt(a', k) == ListAt(b', k) && HashAt(a', k) == HashAt(b', k)
    {
      assert ListAt(a, k) == ListAt(b, k) && HashAt(a, k) == HashAt(b, k);
    }
  }

  lemma FlushAlike(a: Db, b: Db)
    ensures Alike(Flushed(a), Flushed(b))
  {
  }

  lemma AlikeTrans(a: Db, b: Db, c: Db)
    requires Alike(a, b) && Alike(b, c)
    ensures Alike(a, c) && Alike(b, a)
  {
  }

  lemma AlikeSelf(a: Db)
    ensures Alike(a, a)
  {
  }

  /** A command respects likeness exactly when it is not TYPE, KEYS, DEL, EXPIRE or a RENAME of one key to
      another: each of those tells an empty entry from a missing one. */
  lemma RespectsExactly(c: Command)
    ensures Respects(c) <==> !TellsEmptyFromMissing(c)
  {
    if TellsEmptyFromMissing(c) {
      Distinguished(c);
    } else {
      forall a, b | Alike(a, b)
        ensures SameOutcome(Apply(a, c), Apply(b, c))
      {
        ApplyAlike(a, b, c);
      }
    }
  }

  lemma Distinguished(c: Command)
    requires TellsEmptyFromMissing(c)
    ensures !Respects(c)
  {
    var key := match c case Type(k) => k case Del(k) => k case Expire(k, _, _) => k case Rename(k, _) => k case _ => "";
    var a := if c.Rename? then PutList(EMPTY, c.newKey, ["x"]) else EMPTY;
    var b := PutList(a, key, []);
    assert Alike(a, b);
    if c.Keys? {
      assert key in b.lists.Keys && key !in a.lists.Keys;
    } else if c.Rename? {
      var a', b' := Apply(a, c).db, Apply(b, c).db;
      assert ListAt(a', c.newKey) == ["x"] && ListAt(b', c.newKey) == [];
    } else if c.Type? {
      assert "none" != "list";
    }
    assert !SameOutcome(Apply(a, c), Apply(b, c));
  }

  // --------------------------------------------------------- reads do not matter

  /** Commands that leave an alike state. */
  predicate ReadOnly(c: Command) {
    match c
    case OnList(_, op) => op.LGet? || op.LLen? || op.LIndex?
    case OnHash(_, op) => op.HGet? || op.HExists? || op.HLen? || op.HKeys? || op.HVals? || op.HGetAll?
    case _ => c.Ping? || c.Echo? || c.Get? || c.Usage? || c.Unknown?
  }

  lemma ReadChangesNothing(db: Db, c: Command)
    requires ReadOnly(c)
    ensures Apply(db, c).Done? && Alike(Apply(db, c).db, db)
  {
    hide Alike;
    AlikeSelf(db);
    match c
    case OnList(key, op) => ReadOfList(db, key, op);
    case OnHash(key, op) => ReadOfHash(db, key, op);
    case _ =>
  }

  lemma ReadOfList(db: Db, key: string, op: ListOp)
    requires op.LGet? || op.LLen? || op.LIndex?
    ensures Alike(ApplyList(db, key, op).db, db)
  {
    hide Alike;
    RePutAlike(db, key);
  }

  lemma ReadOfHash(db: Db, key: string, op: HashOp)
    requires op.HGet? || op.HExists? || op.HLen? || op.HKeys? || op.HVals? || op.HGetAll?
    ensures Alike(ApplyHash(db, key, op).db, db)
  {
    hide Alike;
    AlikeSelf(db);
    RePutAlike(db, key);
  }

  /** Deleting any reads from a run of data commands changes no other reply and nothing visible in the
      final state; read the other way, reads may be inserted anywhere. */
  lemma {:induction false} ReadsDoNotMatter(a: Db, b: Db, cs: seq<Command>, dropped: seq<bool>)
    requires Alike(a, b) && |dropped| == |cs|
    requires forall i :: 0 <= i < |cs| ==> !TellsEmptyFromMissing(cs[i])
    requires forall i :: 0 <= i < |cs| && dropped[i] ==> ReadOnly(cs[i])
    requires Run(a, cs).Ran?
    ensures var less := Run(b, L.Survivors(cs, dropped));
      |Run(a, cs).replies| == |dropped| && less.Ran? &&
      Alike(Run(a, cs).db, less.db) && less.replies == L.Survivors(Run(a, cs).replies, dropped)
    decreases |cs|
  {
    hide Apply;
    hide Alike;
    RunLength(a, cs);
    if cs == [] {
    } else {
      var a' := Apply(a, cs[0]).db;
      ReadsStep(a, b, cs[0], dropped[0]);
      var b' := if dropped[0] then b else Apply(b, cs[0]).db;
      ReadsDoNotMatter(a', b', cs[1..], dropped[1..]);
      var rest := L.Survivors(cs[1..], dropped[1..]);
      if dropped[0] {
        assert L.Survivors(cs, dropped) == [] + rest;
        assert [] + rest == rest;
      } else {
        assert L.Survivors(cs, dropped) == [cs[0]] + rest;
        assert ([cs[0]] + rest)[1..] == rest;
      }
      assert Run(a, cs).replies[1..] == Run(a', cs[1..]).replies;
    }
  }

  lemma ReadsStep(a: Db, b: Db, c: Command, dropped: bool)
    requires Alike(a, b) && !TellsEmptyFromMissing(c) && Apply(a, c).Done?
    requires dropped ==> ReadOnly(c)
    ensures if dropped then Alike(Apply(a, c).db, b)
            else Apply(b, c).Done? && Apply(b, c).reply == Apply(a, c).reply && Alike(Apply(a, c).db, Apply(b, c).db)
  {
    hide Apply;
    hide Alike;
    if dropped {
      ReadChangesNothing(a, c);
      AlikeTrans(Apply(a, c).db, a, b);
    } else {
      ApplyAlike(a, b, c);
    }
  }
}
