/** What the replies of a run say about the lengths of lists and hashes, and the deque and HMSET laws. */
module Accounts {
  import opened Store
  import opened Databases
  import opened Commands
  import opened Runs
  import L = Lists

  // ------------------------------------------------------------------- lists

  predicate NoEmpty(list: seq<string>) {
    forall i :: 0 <= i < |list| ==> list[i] != ""
  }

  predicate StoresNoEmpty(op: ListOp) {
    match op
    case LSet(_, value) => value != ""
    case LPush(values) => NoEmpty(values)
    case RPush(values) => NoEmpty(values)
    case _ => true
  }

  /** The change of length a client can read off a command and its reply. */
  function ListDelta(op: ListOp, reply: Reply): int {
    match op
    case LPush(values) => |values|
    case RPush(values) => |values|
    case LPop => if reply.Value? then -1 else 0
    case RPop => if reply.Value? then -1 else 0
    case LRem(_, _) => if reply.Number? then 0 - reply.n else 0
    case _ => 0
  }

  /** A pop that takes away an empty string and answers as if the list were empty. */
  predicate PopsEmptyString(list: seq<string>, op: ListOp) {
    list != [] && ((op.LPop? && list[0] == "") || (op.RPop? && list[|list| - 1] == ""))
  }

  /** One command's reply accounts for the change of length, short of a popped empty string. */
  lemma StepAccounts(list: seq<string>, op: ListOp)
    ensures |ListStep(list, op).list|
         == |list| + ListDelta(op, ListStep(list, op).reply) - (if PopsEmptyString(list, op) then 1 else 0)
  {
  }

  lemma {:induction false} RemoveFirstWithin(s: seq<string>, count: nat, value: string)
    ensures forall x :: x in L.RemoveFirst(s, count, value) ==> x in s
  {
    if s == [] || count == 0 {
    } else {
      RemoveFirstWithin(s[1..], if s[0] == value then count - 1 else count, value);
    }
  }

  lemma {:induction false} RemoveLastWithin(s: seq<string>, count: nat, value: string)
    ensures forall x :: x in L.RemoveLast(s, count, value) ==> x in s
  {
    if s == [] || count == 0 {
    } else {
      var init, last := s[..|s| - 1], s[|s| - 1];
      RemoveLastWithin(init, if last == value then count - 1 else count, value);
    }
  }

  lemma {:induction false} ReverseWithin(s: seq<string>)
    ensures forall x :: x in L.Reverse(s) ==> x in s
  {
    if s == [] {
    } else {
      ReverseWithin(s[..|s| - 1]);
    }
  }

  lemma StepKeepsNoEmpty(list: seq<string>, op: ListOp)
    requires NoEmpty(list) && StoresNoEmpty(op)
    ensures NoEmpty(ListStep(list, op).list)
  {
    match op
    case LPush(values) =>
      ReverseWithin(values);
      assert forall i :: 0 <= i < |values| ==> L.Reverse(values)[i] in values;
    case LRem(count, value) =>
      if count >= 0 {
        RemoveFirstWithin(list, count, value);
      } else {
        RemoveLastWithin(list, -count, value);
      }
      var kept := L.Remove(list, count, value);
      assert forall i :: 0 <= i < |kept| ==> kept[i] in list;
    case _ =>
  }

  /** Commands other than the key's own list commands that leave its list alone. */
  predicate SparesKey(c: Command, key: string) {
    match c
    case FlushAll => false
    case Del(k) => k != key
    case Rename(oldKey, newKey) => oldKey != key && newKey != key
    case _ => true
  }

  lemma OthersSpareKey(db: Db, c: Command, key: string)
    requires SparesKey(c, key) && Apply(db, c).Done?
    ensures !(c.OnList? && c.key == key) ==> ListAt(Apply(db, c).db, key) == ListAt(db, key)
    ensures !(c.OnHash? && c.key == key) ==> HashAt(Apply(db, c).db, key) == HashAt(db, key)
  {
    hide ListStep;
    hide HashStep;
  }

  lemma OwnList(db: Db, key: string, op: ListOp)
    ensures var o := ListStep(ListAt(db, key), op);
      Apply(db, OnList(key, op)).reply == o.reply && ListAt(Apply(db, OnList(key, op)).db, key) == o.list
  {
    if key !in db.lists && op.LRem? {
      L.RemoveIsPositional([], op.count, op.value);
    }
  }

  lemma OwnHash(db: Db, key: string, op: HashOp)
    ensures var (hash, reply) := HashStep(HashAt(db, key), op);
      Apply(db, OnHash(key, op)).reply == reply && HashAt(Apply(db, OnHash(key, op)).db, key) == hash
  {
    if key !in db.hashes && op.HDel? {
      assert HashAt(db, key) - {op.field} == HashAt(db, key);
    }
  }

  function ListBalance(key: string, cs: seq<Command>, replies: seq<Reply>): int
    requires |cs| == |replies|
  {
    if cs == [] then 0
    else
      (if cs[0].OnList? && cs[0].key == key then ListDelta(cs[0].listOp, replies[0]) else 0)
      + ListBalance(key, cs[1..], replies[1..])
  }

  /** The command pops an empty string off the key's list. */
  predicate TakesEmptyString(db: Db, key: string, c: Command) {
    c.OnList? && c.key == key && PopsEmptyString(ListAt(db, key), c.listOp)
  }

  /** How many pops of a run take an empty string off the key's list. */
  function EmptyPops(db: Db, key: string, cs: seq<Command>): nat
    decreases |cs|
  {
    if cs == [] || Apply(db, cs[0]).Throws? then 0
    else (if TakesEmptyString(db, key, cs[0]) then 1 else 0) + EmptyPops(Apply(db, cs[0]).db, key, cs[1..])
  }

  /** The list ledger of any mixed run: the length is what it was, plus the values pushed, minus the pops answered
      with a value, minus the LREM replies, minus the empty strings popped, which are answered like a pop from
      an empty list. */
  lemma {:induction false} ListLedger(db: Db, key: string, cs: seq<Command>)
    requires Run(db, cs).Ran?
    requires forall i :: 0 <= i < |cs| ==> SparesKey(cs[i], key)
    ensures |Run(db, cs).replies| == |cs|
    ensures |ListAt(Run(db, cs).db, key)|
         == |ListAt(db, key)| + ListBalance(key, cs, Run(db, cs).replies) - EmptyPops(db, key, cs)
    decreases |cs|
  {
    hide Apply;
    hide PopsEmptyString;
    RunLength(db, cs);
    if cs == [] {
    } else {
      var c := cs[0];
      OthersSpareKey(db, c, key);
      if c.OnList? && c.key == key {
        OwnList(db, key, c.listOp);
        StepAccounts(ListAt(db, key), c.listOp);
        assert Apply(db, c) == Apply(db, OnList(key, c.listOp));
      }
      var rest := Run(Apply(db, c).db, cs[1..]);
      ListLedger(Apply(db, c).db, key, cs[1..]);
      assert Run(db, cs).replies[1..] == rest.replies;
    }
  }

  /** Every part of a completed run completes. */
  lemma RunPrefix(db: Db, cs: seq<Command>, i: nat)
    requires i <= |cs| && Run(db, cs).Ran?
    ensures Run(db, cs[..i]).Ran?
  {
    hide Run;
    RunAppend(db, cs[..i], cs[i..]);
    assert cs[..i] + cs[i..] == cs;
  }

  /** The pops are counted one by one, each at the state the run has reached. */
  lemma {:induction false} NoEmptyPops(db: Db, key: string, cs: seq<Command>)
    requires Run(db, cs).Ran?
    ensures forall i :: 0 <= i < |cs| ==> Run(db, cs[..i]).Ran?
    ensures EmptyPops(db, key, cs) == 0
            <==> forall i :: 0 <= i < |cs| ==> !TakesEmptyString(Run(db, cs[..i]).db, key, cs[i])
    decreases |cs|
  {
    hide Apply;
    hide TakesEmptyString;
    if cs == [] {
    } else {
      var db', rest := Apply(db, cs[0]).db, cs[1..];
      NoEmptyPops(db', key, rest);
      assert Run(db, cs[..0]) == Ran(db, []);
      forall i | 0 < i < |cs|
        ensures Run(db, cs[..i]).Ran? && Run(db, cs[..i]).db == Run(db', rest[..i - 1]).db && cs[i] == rest[i - 1]
      {
        assert cs[..i][1..] == rest[..i - 1];
        RunPrefix(db', rest, i - 1);
      }
      assert forall j :: 0 <= j < |rest| ==> Run(db, cs[..j + 1]).db == Run(db', rest[..j]).db && cs[j + 1] == rest[j];
    }
  }

  /** The replies of a run account for the length exactly when no pop of the run takes an empty string. */
  lemma LedgerBalancesIff(db: Db, key: string, cs: seq<Command>)
    requires Run(db, cs).Ran?
    requires forall i :: 0 <= i < |cs| ==> SparesKey(cs[i], key)
    ensures |Run(db, cs).replies| == |cs| && forall i :: 0 <= i < |cs| ==> Run(db, cs[..i]).Ran?
    ensures |ListAt(Run(db, cs).db, key)| == |ListAt(db, key)| + ListBalance(key, cs, Run(db, cs).replies)
            <==> forall i :: 0 <= i < |cs| ==> !TakesEmptyString(Run(db, cs[..i]).db, key, cs[i])
  {
    hide Run;
    hide TakesEmptyString;
    hide ListBalance;
    hide EmptyPops;
    ListLedger(db, key, cs);
    NoEmptyPops(db, key, cs);
  }

  /** A run that starts without empty strings in the list and pushes none never pops one. */
  lemma {:induction false} NothingEmptyToPop(db: Db, key: string, cs: seq<Command>)
    requires NoEmpty(ListAt(db, key)) && Run(db, cs).Ran?
    requires forall i :: 0 <= i < |cs| ==> SparesKey(cs[i], key)
    requires forall i :: 0 <= i < |cs| && cs[i].OnList? && cs[i].key == key ==> StoresNoEmpty(cs[i].listOp)
    ensures EmptyPops(db, key, cs) == 0
    decreases |cs|
  {
    hide Apply;
    if cs == [] {
    } else {
      var c := cs[0];
      OthersSpareKey(db, c, key);
      if c.OnList? && c.key == key {
        OwnList(db, key, c.listOp);
        StepKeepsNoEmpty(ListAt(db, key), c.listOp);
        assert Apply(db, c) == Apply(db, OnList(key, c.listOp));
      }
      NothingEmptyToPop(Apply(db, c).db, key, cs[1..]);
    }
  }

  /** So without empty strings the replies account for the length. */
  lemma PlainListLedger(db: Db, key: string, cs: seq<Command>)
    requires NoEmpty(ListAt(db, key)) && Run(db, cs).Ran?
    requires forall i :: 0 <= i < |cs| ==> SparesKey(cs[i], key)
    requires forall i :: 0 <= i < |cs| && cs[i].OnList? && cs[i].key == key ==> StoresNoEmpty(cs[i].listOp)
    ensures |Run(db, cs).replies| == |cs|
    ensures |ListAt(Run(db, cs).db, key)| == |ListAt(db, key)| + ListBalance(key, cs, Run(db, cs).replies)
  {
    ListLedger(db, key, cs);
    NothingEmptyToPop(db, key, cs);
  }

  // ------------------------------------------------------------------ hashes

  function HashDelta(op: HashOp, reply: Reply): int {
    if op.HSet? && reply.Number? then reply.n
    else if op.HDel? && reply.Number? then 0 - reply.n
    else 0
  }

  lemma HashStepAccounts(hash: Fields, op: HashOp)
    requires !op.HMSet?
    ensures |HashStep(hash, op).0| == |hash| + HashDelta(op, HashStep(hash, op).1)
  {
    if op.HSet? {
      FieldCount(hash, op.field, op.value);
    } else if op.HDel? {
      FieldCount(hash, op.field, "");
    }
  }

  lemma FieldCount(hash: Fields, field: string, value: string)
    ensures |hash[field := value]| == |hash| + (if field in hash then 0 else 1)
    ensures |hash - {field}| == |hash| - (if field in hash then 1 else 0)
  {
    assert hash[field := value].Keys == hash.Keys + {field};
    assert field in hash.Keys ==> hash.Keys + {field} == hash.Keys;
    assert (hash - {field}).Keys == hash.Keys - {field};
  }

  function HashBalance(key: string, cs: seq<Command>, replies: seq<Reply>): int
    requires |cs| == |replies|
  {
    if cs == [] then 0
    else
      (if cs[0].OnHash? && cs[0].key == key then HashDelta(cs[0].hashOp, replies[0]) else 0)
      + HashBalance(key, cs[1..], replies[1..])
  }

  /** In any mixed run without HMSET on the key, the number of fields is what it was, plus the HSET replies,
      minus the HDEL replies. */
  lemma {:induction false} HashLedger(db: Db, key: string, cs: seq<Command>)
    requires Run(db, cs).Ran?
    requires forall i :: 0 <= i < |cs| ==> SparesKey(cs[i], key)
    requires forall i :: 0 <= i < |cs| && cs[i].OnHash? && cs[i].key == key ==> !cs[i].hashOp.HMSet?
    ensures |Run(db, cs).replies| == |cs|
    ensures |HashAt(Run(db, cs).db, key)| == |HashAt(db, key)| + HashBalance(key, cs, Run(db, cs).replies)
    decreases |cs|
  {
    hide Apply;
    RunLength(db, cs);
    if cs == [] {
    } else {
      var c := cs[0];
      OthersSpareKey(db, c, key);
      if c.OnHash? && c.key == key {
        OwnHash(db, key, c.hashOp);
        HashStepAccounts(HashAt(db, key), c.hashOp);
        assert Apply(db, c) == Apply(db, OnHash(key, c.hashOp));
      }
      var rest := Run(Apply(db, c).db, cs[1..]);
      HashLedger(Apply(db, c).db, key, cs[1..]);
      assert Run(db, cs).replies[1..] == rest.replies;
    }
  }

  /** After HMSET a field has the value of the last pair that names it. */
  lemma {:induction false} LastPairWins(hash: Fields, pairs: seq<(string, string)>, i: nat)
    requires i < |pairs| && forall j :: i < j < |pairs| ==> pairs[j].0 != pairs[i].0
    ensures pairs[i].0 in SetAll(hash, pairs) && SetAll(hash, pairs)[pairs[i].0] == pairs[i].1
  {
    if i >= |pairs| - 1 {
    } else {
      LastPairWins(hash, pairs[..|pairs| - 1], i);
    }
  }

  lemma {:induction false} OtherFieldsKept(hash: Fields, pairs: seq<(string, string)>, field: string)
    requires forall j :: 0 <= j < |pairs| ==> pairs[j].0 != field
    ensures field in SetAll(hash, pairs) <==> field in hash
    ensures field in hash ==> SetAll(hash, pairs)[field] == hash[field]
  {
    if pairs == [] {
    } else {
      OtherFieldsKept(hash, pairs[..|pairs| - 1], field);
    }
  }

  function HSets(key: string, pairs: seq<(string, string)>): seq<Command> {
    if pairs == [] then []
    else HSets(key, pairs[..|pairs| - 1]) + [OnHash(key, HSet(pairs[|pairs| - 1].0, pairs[|pairs| - 1].1))]
  }

  /** HMSET leaves what the HSETs of its pairs leave, one after another. */
  lemma {:induction false} HMSetIsHSets(db: Db, key: string, pairs: seq<(string, string)>)
    ensures Run(db, HSets(key, pairs)).Ran?
    ensures Run(db, HSets(key, pairs)).db == Apply(db, OnHash(key, HMSet(pairs))).db
  {
    hide Apply;
    if pairs == [] {
      HMSetOfNothing(db, key);
    } else {
      var init, last := pairs[..|pairs| - 1], pairs[|pairs| - 1];
      HMSetIsHSets(db, key, init);
      RunAppend(db, HSets(key, init), [OnHash(key, HSet(last.0, last.1))]);
      HMSetSnoc(db, key, init, last);
      HashNeverThrows(Run(db, HSets(key, init)).db, OnHash(key, HSet(last.0, last.1)));
      HashNeverThrows(db, OnHash(key, HMSet(pairs)));
      assert init + [last] == pairs;
      RunOne(Run(db, HSets(key, init)).db, OnHash(key, HSet(last.0, last.1)));
    }
  }

  lemma HMSetOfNothing(db: Db, key: string)
    ensures Apply(db, OnHash(key, HMSet([]))).db == db
  {
    assert key in db.hashes ==> db.hashes[key := db.hashes[key]] == db.hashes;
  }

  lemma RunOne(db: Db, c: Command)
    requires Apply(db, c).Done?
    ensures Run(db, [c]) == Ran(Apply(db, c).db, [Apply(db, c).reply])
  {
    hide Apply;
    assert [c][1..] == [];
    assert Run(Apply(db, c).db, []) == Ran(Apply(db, c).db, []);
  }

  lemma HashNeverThrows(db: Db, c: Command)
    requires c.OnHash?
    ensures Apply(db, c).Done?
  {
  }

  lemma HMSetSnoc(db: Db, key: string, init: seq<(string, string)>, last: (string, string))
    ensures Apply(Apply(db, OnHash(key, HMSet(init))).db, OnHash(key, HSet(last.0, last.1))).db
         == Apply(db, OnHash(key, HMSet(init + [last]))).db
  {
    assert (init + [last])[..|init|] == init;
    var hash := SetAll(HashAt(db, key), init);
    assert db.hashes[key := hash][key := hash[last.0 := last.1]] == db.hashes[key := hash[last.0 := last.1]];
  }

  /** HKEYS, HVALS and HGETALL walked in one order tell the same story: the i-th field, its value, and the
      i-th pair of strings. */
  lemma {:induction false} WalksAgree(hash: Fields, order: seq<string>, i: nat)
    requires (forall f :: f in order ==> f in hash) && i < |order|
    ensures |ValuesOf(hash, order)| == |order| && |Flattened(hash, order)| == 2 * |order|
    ensures ValuesOf(hash, order)[i] == hash[order[i]]
    ensures Flattened(hash, order)[2 * i] == order[i] && Flattened(hash, order)[2 * i + 1] == hash[order[i]]
  {
    var n := |order| - 1;
    ValuesLength(hash, order[..n]);
    FlattenedLength(hash, order[..n]);
    if i >= n {
    } else {
      WalksAgree(hash, order[..n], i);
    }
  }

  // ------------------------------------------------------------------- deques

  function Copies(c: Command, n: nat): seq<Command> {
    if n == 0 then [] else [c] + Copies(c, n - 1)
  }

  /** How a popped value is answered. */
  function PopReplies(values: seq<string>): seq<Reply> {
    if values == [] then [] else [ValueOrNil(values[0])] + PopReplies(values[1..])
  }

  lemma {:induction false} PopAllLeft(db: Db, key: string)
    ensures Run(db, Copies(OnList(key, LPop), |ListAt(db, key)|)).Ran?
    ensures Run(db, Copies(OnList(key, LPop), |ListAt(db, key)|)).replies == PopReplies(ListAt(db, key))
    decreases |ListAt(db, key)|
  {
    hide Apply;
    var list := ListAt(db, key);
    if list == [] {
    } else {
      var pop := OnList(key, LPop);
      OwnList(db, key, LPop);
      PopNeverThrows(db, pop);
      PopAllLeft(Apply(db, pop).db, key);
      assert Copies(pop, |list|) == [pop] + Copies(pop, |list| - 1);
    }
  }

  lemma PopNeverThrows(db: Db, c: Command)
    requires c.OnList?
    ensures Apply(db, c).Done?
  {
  }

  lemma {:induction false} PopAllRight(db: Db, key: string)
    ensures Run(db, Copies(OnList(key, RPop), |ListAt(db, key)|)).Ran?
    ensures Run(db, Copies(OnList(key, RPop), |ListAt(db, key)|)).replies == PopReplies(L.Reverse(ListAt(db, key)))
    decreases |ListAt(db, key)|
  {
    hide Apply;
    var list := ListAt(db, key);
    if list == [] {
    } else {
      var pop := OnList(key, RPop);
      OwnList(db, key, RPop);
      PopNeverThrows(db, pop);
      PopAllRight(Apply(db, pop).db, key);
      assert Copies(pop, |list|) == [pop] + Copies(pop, |list| - 1);
      assert L.Reverse(list)[1..] == L.Reverse(list[..|list| - 1]);
    }
  }

  lemma PushThenPop(db: Db, key: string, push: ListOp, pop: ListOp, list: seq<string>, replies: seq<Reply>)
    requires ListStep(ListAt(db, key), push) == ListOutcome(list, Number(|list|), [true])
    requires pop.LPop? || pop.RPop?
    requires replies == PopReplies(if pop.LPop? then list else L.Reverse(list))
    ensures var r := Run(db, [OnList(key, push)] + Copies(OnList(key, pop), |list|));
      r.Ran? && r.replies == [Number(|list|)] + replies
  {
    hide Apply;
    hide ListStep;
    var c := OnList(key, push);
    OwnList(db, key, push);
    PopNeverThrows(db, c);
    if pop.LPop? {
      PopAllLeft(Apply(db, c).db, key);
    } else {
      PopAllRight(Apply(db, c).db, key);
    }
    assert ([c] + Copies(OnList(key, pop), |list|))[1..] == Copies(OnList(key, pop), |list|);
  }

  /** From an empty list: what LPUSH pushed comes back in order by RPOP and reversed by LPOP; with RPUSH it is
      the other way round. */
  lemma DequeLaws(db: Db, key: string, values: seq<string>)
    requires ListAt(db, key) == []
    ensures var n := |values|;
      var lpush, rpush := OnList(key, LPush(values)), OnList(key, RPush(values));
      var lpops, rpops := Copies(OnList(key, LPop), n), Copies(OnList(key, RPop), n);
      var queued := [Number(n)] + PopReplies(values);
      var stacked := [Number(n)] + PopReplies(L.Reverse(values));
      && Run(db, [lpush] + rpops).Ran? && Run(db, [lpush] + rpops).replies == queued
      && Run(db, [lpush] + lpops).Ran? && Run(db, [lpush] + lpops).replies == stacked
      && Run(db, [rpush] + lpops).Ran? && Run(db, [rpush] + lpops).replies == queued
      && Run(db, [rpush] + rpops).Ran? && Run(db, [rpush] + rpops).replies == stacked
  {
    hide Run;
    hide PopReplies;
    L.ReverseTwice(values);
    assert L.Reverse(values) + [] == L.Reverse(values);
    assert [] + values == values;
    PushThenPop(db, key, LPush(values), RPop, L.Reverse(values), PopReplies(values));
    PushThenPop(db, key, LPush(values), LPop, L.Reverse(values), PopReplies(L.Reverse(values)));
    PushThenPop(db, key, RPush(values), LPop, values, PopReplies(values));
    PushThenPop(db, key, RPush(values), RPop, values, PopReplies(L.Reverse(values)));
  }

  function PushOp(left: bool, values: seq<string>): ListOp {
    if left then LPush(values) else RPush(values)
  }

  /** One push for each value. */
  function Pushes(key: string, left: bool, values: seq<string>): seq<Command> {
    if values == [] then []
    else
      var n := |values| - 1;
      Pushes(key, left, values[..n]) + [OnList(key, PushOp(left, [values[n]]))]
  }

  /** The sizes n + 1, n + 2, ... as replies. */
  function Sizes(n: nat, count: nat): seq<Reply> {
    seq(count, i requires 0 <= i < count => Number(n + i + 1))
  }

  lemma OneMoreSize(n: nat, count: nat)
    ensures Sizes(n, count + 1) == Sizes(n, count) + [Number(n + count + 1)]
  {
  }

  /** Pushing one value more after the others. */
  lemma OnePushMore(list: seq<string>, left: bool, init: seq<string>, last: string)
    ensures var before := ListStep(list, PushOp(left, init)).list;
      && |before| == |list| + |init|
      && ListStep(before, PushOp(left, [last])).list == ListStep(list, PushOp(left, init + [last])).list
      && ListStep(before, PushOp(left, [last])).reply == Number(|list| + |init| + 1)
  {
    assert (init + [last])[..|init|] == init;
    assert [last][..0] == [];
    assert L.Reverse([last]) == [last] + L.Reverse([]);
    assert [last] + (L.Reverse(init) + list) == [last] + L.Reverse(init) + list;
    assert list + init + [last] == list + (init + [last]);
  }

  /** The run and the one push agree. */
  predicate PushesLike(r: RunResult, list: seq<string>, key: string, left: bool, values: seq<string>) {
    && r.Ran? && r.replies == Sizes(|list|, |values|)
    && ListAt(r.db, key) == ListStep(list, PushOp(left, values)).list
  }

  lemma PushOneMore(r: RunResult, list: seq<string>, key: string, left: bool, init: seq<string>, last: string)
    requires PushesLike(r, list, key, left, init)
    ensures PushesLike(Then(r, [OnList(key, PushOp(left, [last]))]), list, key, left, init + [last])
  {
    hide Apply;
    hide ListStep;
    hide Run;
    hide Sizes;
    hide PushOp;
    var c := OnList(key, PushOp(left, [last]));
    OneMoreSize(|list|, |init|);
    OwnList(r.db, key, c.listOp);
    PopNeverThrows(r.db, c);
    RunOne(r.db, c);
    OnePushMore(list, left, init, last);
  }

  /** Pushes of single values answer with the growing sizes and leave the list that one push of them all leaves. */
  lemma {:induction false} PushesAreOnePush(db: Db, key: string, left: bool, values: seq<string>)
    ensures PushesLike(Run(db, Pushes(key, left, values)), ListAt(db, key), key, left, values)
  {
    var list := ListAt(db, key);
    if values == [] {
      assert L.Reverse(values) + list == list == list + values;
    } else {
      hide Run;
      hide PushesLike;
      var n := |values| - 1;
      var pushes := Pushes(key, left, values[..n]);
      PushesAreOnePush(db, key, left, values[..n]);
      RunAppend(db, pushes, [OnList(key, PushOp(left, [values[n]]))]);
      PushOneMore(Run(db, pushes), list, key, left, values[..n], values[n]);
      assert values[..n] + [values[n]] == values;
    }
  }

  /** Single pushes, then as many pops. */
  lemma PushesThenPops(db: Db, key: string, left: bool, pop: ListOp, values: seq<string>)
    requires ListAt(db, key) == [] && (pop.LPop? || pop.RPop?)
    ensures var r := Run(db, Pushes(key, left, values) + Copies(OnList(key, pop), |values|));
      && r.Ran?
      && r.replies == Sizes(0, |values|) + PopReplies(if left == pop.RPop? then values else L.Reverse(values))
  {
    hide Run;
    hide PopReplies;
    PushesAreOnePush(db, key, left, values);
    var end := Run(db, Pushes(key, left, values)).db;
    RunAppend(db, Pushes(key, left, values), Copies(OnList(key, pop), |values|));
    L.ReverseTwice(values);
    assert L.Reverse(values) + [] == L.Reverse(values);
    assert [] + values == values;
    if pop.LPop? {
      PopAllLeft(end, key);
    } else {
      PopAllRight(end, key);
    }
  }

  /** The deque laws for a run of single pushes and as many pops: LPUSH and RPOP, or RPUSH and LPOP, make a queue,
      pushing and popping at one end makes a stack. */
  lemma DequeLawsOneByOne(db: Db, key: string, values: seq<string>)
    requires ListAt(db, key) == []
    ensures var lpushes, rpushes := Pushes(key, true, values), Pushes(key, false, values);
      var lpops, rpops := Copies(OnList(key, LPop), |values|), Copies(OnList(key, RPop), |values|);
      var queued := Sizes(0, |values|) + PopReplies(values);
      var stacked := Sizes(0, |values|) + PopReplies(L.Reverse(values));
      && Run(db, lpushes + rpops).Ran? && Run(db, lpushes + rpops).replies == queued
      && Run(db, lpushes + lpops).Ran? && Run(db, lpushes + lpops).replies == stacked
      && Run(db, rpushes + lpops).Ran? && Run(db, rpushes + lpops).replies == queued
      && Run(db, rpushes + rpops).Ran? && Run(db, rpushes + rpops).replies == stacked
  {
    hide Run;
    hide PopReplies;
    hide Pushes;
    hide Copies;
    hide Sizes;
    PushesThenPops(db, key, true, RPop, values);
    PushesThenPops(db, key, true, LPop, values);
    PushesThenPops(db, key, false, LPop, values);
    PushesThenPops(db, key, false, RPop, values);
  }

  // ------------------------------------------------------------ reading writes back

  /** Commands that may change or remove one field of the key's hash. */
  predicate WritesField(c: Command, key: string, field: string) {
    if c.OnHash? then c.key == key && OpWritesField(c.hashOp, field) else !SparesKey(c, key)
  }

  predicate OpWritesField(op: HashOp, field: string) {
    match op
    case HSet(f, _) => f == field
    case HDel(f) => f == field
    case HMSet(pairs) => exists i :: 0 <= i < |pairs| && pairs[i].0 == field
    case _ => false
  }

  lemma FieldKept(db: Db, c: Command, key: string, field: string)
    requires !WritesField(c, key, field) && Apply(db, c).Done?
    requires field in HashAt(db, key)
    ensures field in HashAt(Apply(db, c).db, key) && HashAt(Apply(db, c).db, key)[field] == HashAt(db, key)[field]
  {
    if c.OnHash? && c.key == key {
      if c.hashOp.HMSet? {
        OtherFieldsKept(HashAt(db, key), c.hashOp.pairs, field);
      }
    } else {
      hide Apply;
      OthersSpareKey(db, c, key);
    }
  }

  lemma {:induction false} FieldKeptByRun(db: Db, cs: seq<Command>, key: string, field: string)
    requires Run(db, cs).Ran? && field in HashAt(db, key)
    requires forall i :: 0 <= i < |cs| ==> !WritesField(cs[i], key, field)
    ensures var db' := Run(db, cs).db;
      field in HashAt(db', key) && HashAt(db', key)[field] == HashAt(db, key)[field]
    decreases |cs|
  {
    hide Apply;
    if cs == [] {
    } else {
      FieldKept(db, cs[0], key, field);
      FieldKeptByRun(Apply(db, cs[0]).db, cs[1..], key, field);
    }
  }

  /** HGET answers with the last HSET of the field, through any run that does not write that field. */
  lemma HGetReturnsLastHSet(db: Db, cs: seq<Command>, key: string, field: string, value: string)
    requires forall i :: 0 <= i < |cs| ==> !WritesField(cs[i], key, field)
    requires Run(db, [OnHash(key, HSet(field, value))] + cs).Ran?
    ensures var db' := Run(db, [OnHash(key, HSet(field, value))] + cs).db;
      Apply(db', OnHash(key, HGet(field))).reply == ValueOrNil(value)
  {
    var c := OnHash(key, HSet(field, value));
    OwnHash(db, key, HSet(field, value));
    assert ([c] + cs)[1..] == cs;
    FieldKeptByRun(Apply(db, c).db, cs, key, field);
    OwnHash(Run(db, [c] + cs).db, key, HGet(field));
  }

  /** An element set is the element read, and no other element changes; out of range nothing changes. */
  lemma LIndexReadsLSet(list: seq<string>, index: int, value: string, i: int)
    ensures var set' := ListStep(list, LSet(index, value)).list;
      |set'| == |list| &&
      ListStep(set', LIndex(i)).reply ==
      if i == index && 0 <= index < |list| then (if value == "" then IndexMiss else Value(value))
      else ListStep(list, LIndex(i)).reply
  {
  }
}
