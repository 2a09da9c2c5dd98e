/** What clients can observe of each command, said through the replies of other commands and through slots. */
module Observations {
  import opened Bytes
  import opened Decimal
  import opened Store
  import opened Commands
  import opened Runs
  import opened Locality
  import opened Accounts
  import L = Lists

  // -------------------------------------------------------------------- slots

  /** DEL empties the slot of its key but for the deadline, and answers whether there was anything. */
  lemma DelEmptiesSlot(db: Db, key: string)
    ensures var before, o := SlotOf(db, key), Apply(db, Del(key));
      && o.Done? && SlotOf(o.db, key) == Slot(None, None, None, before.deadline)
      && o.reply == Number(if before.str.Some? || before.list.Some? || before.hash.Some? then 1 else 0)
  {
  }

  /** SET fills the string of the slot and leaves the rest of it. */
  lemma SetFillsSlot(db: Db, key: string, value: string)
    ensures var o := Apply(db, Commands.Set(key, value));
      o.Done? && o.reply == Simple("OK") && SlotOf(o.db, key) == SlotOf(db, key).(str := Some(value))
  {
  }

  /** FLUSHALL empties every slot but for the deadlines. */
  lemma FlushEmptiesSlots(db: Db, key: string)
    ensures var o := Apply(db, FlushAll);
      o.Done? && o.reply == Simple("OK") && SlotOf(o.db, key) == Slot(None, None, None, SlotOf(db, key).deadline)
  {
  }

  /** EXPIRE sets a deadline so many nanoseconds ahead, on a key that holds something, and nothing else. */
  lemma ExpireSetsDeadline(db: Db, key: string, n: nat, now: int)
    requires n <= LLONG_MAX
    ensures var before, o := SlotOf(db, key), Apply(db, Expire(key, ToDecimal(n), now));
      && o.Done?
      && if before.str.None? && before.list.None? && before.hash.None? then o.db == db && o.reply == Nil
         else o.reply == Simple("OK") && SlotOf(o.db, key) == before.(deadline := Some(now + 1_000_000_000 * n))
  {
    DecimalDigits(n);
    DecimalValue(n);
    SignedOfDigits(ToDecimal(n));
  }

  /** Seconds that are no number end EXPIRE in an exception, but only for a key that holds something. */
  lemma ExpireThrows(db: Db, key: string, seconds: string, now: int)
    requires Stoll(seconds) == None
    ensures var before, o := SlotOf(db, key), Apply(db, Expire(key, seconds, now));
      if before.str.None? && before.list.None? && before.hash.None? then o == Done(db, Nil, [true]) else o == Throws
  {
    hide Stoll;
  }

  /** TYPE names the first store that holds the key. */
  lemma TypeNamesSlot(db: Db, key: string)
    ensures var slot, o := SlotOf(db, key), Apply(db, Type(key));
      && o.Done? && o.db == db
      && (slot.str.Some? ==> o.reply == Simple("string"))
      && (slot.str.None? && slot.list.Some? ==> o.reply == Simple("list"))
      && (slot.str.None? && slot.list.None? && slot.hash.Some? ==> o.reply == Simple("hash"))
      && (slot.str.None? && slot.list.None? && slot.hash.None? ==> o.reply == Simple("none"))
  {
  }

  /** GET answers the string of the slot. */
  lemma GetReadsSlot(db: Db, key: string)
    ensures var o := Apply(db, Get(key));
      && o.Done? && o.db == db
      && (match SlotOf(db, key).str case Some(value) => o.reply == Value(value) case None => o.reply == Nil)
  {
  }

  lemma PingAndEcho(db: Db, message: string)
    ensures Apply(db, Ping) == Done(db, Simple("PONG"), [true])
    ensures Apply(db, Echo(message)) == Done(db, Simple(message), [true])
  {
  }

  /** Which commands leave an entry behind for a key that had none: every list command but LREM, every hash command
      but HGET, HEXISTS and HDEL. */
  lemma EntryLeftBehind(db: Db, key: string, list: ListOp, hash: HashOp)
    requires hash.HMSet? ==> hash.pairs != []
    ensures key in Apply(db, OnList(key, list)).db.lists <==> key in db.lists || !list.LRem?
    ensures key in Apply(db, OnHash(key, hash)).db.hashes
            <==> key in db.hashes || !(hash.HGet? || hash.HExists? || hash.HDel?)
  {
    hide ListStep;
    hide HashStep;
  }

  /** KEYS lists every string key twice, every list key once more, and nothing for a hash. */
  lemma KeysListsTwice(db: Db, bytes: string, key: string) returns (items: seq<string>)
    requires Renders(Apply(db, Keys).reply, bytes)
    ensures bytes == ArrayText(|items|, items)
    ensures multiset(items)[key] == (if key in db.kv then 2 else 0) + (if key in db.lists then 1 else 0)
  {
    var s, l :| Enumerates(s, db.kv.Keys) && Enumerates(l, db.lists.Keys) && bytes == ArrayText(|s + l + s|, s + l + s);
    items := s + l + s;
    ListedOnce(s, db.kv.Keys, key);
    ListedOnce(l, db.lists.Keys, key);
    assert multiset(items) == multiset(s) + multiset(l) + multiset(s);
  }

  lemma {:induction false} ListedOnce(order: seq<string>, keys: set<string>, key: string)
    requires Enumerates(order, keys)
    ensures multiset(order)[key] == if key in keys then 1 else 0
  {
    if order == [] {
    } else {
      var n := |order| - 1;
      assert forall k :: k in order <==> k in order[..n] || k == order[n];
      assert order[n] !in order[..n];
      ListedOnce(order[..n], keys - {order[n]}, key);
      assert order == order[..n] + [order[n]];
    }
  }

  // -------------------------------------------------------------------- lists

  /** What LGET answers. */
  function Listed(db: Db, key: string): seq<string> {
    match Apply(db, OnList(key, LGet)).reply
    case Items(items) => items
    case _ => []
  }

  function ListReply(db: Db, key: string, op: ListOp): Reply {
    match Apply(db, OnList(key, op))
    case Done(_, reply, _) => reply
    case Throws => Nil
  }

  /** What LGET answers after the command. */
  function ListedAfter(db: Db, key: string, op: ListOp): seq<string> {
    match Apply(db, OnList(key, op))
    case Done(db', _, _) => Listed(db', key)
    case Throws => []
  }

  lemma ListIsListed(db: Db, key: string)
    ensures Listed(db, key) == ListAt(db, key)
  {
  }

  lemma ListCommandSteps(db: Db, key: string, op: ListOp)
    ensures Listed(db, key) == ListAt(db, key)
    ensures ListReply(db, key, op) == ListStep(Listed(db, key), op).reply
    ensures ListedAfter(db, key, op) == ListStep(Listed(db, key), op).list
  {
    hide Listed;
    ListIsListed(db, key);
    OwnList(db, key, op);
    ListIsListed(Apply(db, OnList(key, op)).db, key);
    PopNeverThrows(db, OnList(key, op));
    hide Apply;
  }

  /** LGET, LLEN and LINDEX tell the same story. */
  lemma ListReadsAgree(db: Db, key: string, i: int)
    ensures ListReply(db, key, LGet) == Items(Listed(db, key))
    ensures ListReply(db, key, LLen) == Number(|Listed(db, key)|)
    ensures ListReply(db, key, LIndex(i)) ==
      if 0 <= i < |Listed(db, key)| && Listed(db, key)[i] != "" then Value(Listed(db, key)[i]) else IndexMiss
    ensures ListedAfter(db, key, LGet) == ListedAfter(db, key, LLen) == Listed(db, key)
    ensures ListedAfter(db, key, LIndex(i)) == Listed(db, key)
    ensures SlotOf(db, key).list.None? ==> Listed(db, key) == []
  {
    ListCommandSteps(db, key, LGet);
    ListCommandSteps(db, key, LLen);
    ListCommandSteps(db, key, LIndex(i));
  }

  /** RPUSH adds the values after the list, LPUSH one by one in front of it; both answer the new length. */
  lemma PushesSeen(db: Db, key: string, values: seq<string>)
    ensures var before, n := Listed(db, key), |Listed(db, key)| + |values|;
      && ListReply(db, key, RPush(values)) == ListReply(db, key, LPush(values)) == Number(n)
      && ListedAfter(db, key, RPush(values)) == before + values
      && |ListedAfter(db, key, LPush(values))| == n
      && (forall i :: 0 <= i < |values| ==> ListedAfter(db, key, LPush(values))[i] == values[|values| - 1 - i])
      && ListedAfter(db, key, LPush(values))[|values|..] == before
  {
    ListCommandSteps(db, key, RPush(values));
    ListCommandSteps(db, key, LPush(values));
    hide ListedAfter;
    hide ListReply;
    hide Listed;
    forall i | 0 <= i < |values|
      ensures L.Reverse(values)[i] == values[|values| - 1 - i]
    {
      L.ReverseAt(values, i);
    }
  }

  /** The pops take the first and the last element, and answer it unless it is empty. */
  lemma PopsSeen(db: Db, key: string)
    ensures var list, n := Listed(db, key), |Listed(db, key)| - 1;
      if list == [] then
        && ListReply(db, key, LPop) == ListReply(db, key, RPop) == Nil
        && ListedAfter(db, key, LPop) == ListedAfter(db, key, RPop) == []
      else
        && ListReply(db, key, LPop) == (if list[0] == "" then Nil else Value(list[0]))
        && ListReply(db, key, RPop) == (if list[n] == "" then Nil else Value(list[n]))
        && ListedAfter(db, key, LPop) == list[1..] && ListedAfter(db, key, RPop) == list[..n]
  {
    ListCommandSteps(db, key, LPop);
    ListCommandSteps(db, key, RPop);
  }

  /** LSET changes the element at the index, if there is one, and answers whether there was. */
  lemma LSetSeen(db: Db, key: string, index: int, value: string)
    ensures var list, after := Listed(db, key), ListedAfter(db, key, LSet(index, value));
      && |after| == |list|
      && (forall i :: 0 <= i < |list| ==> after[i] == if i == index then value else list[i])
      && (ListReply(db, key, LSet(index, value)) == Simple("OK") <==> 0 <= index < |list|)
      && ListReply(db, key, LSet(index, value)).Failure? == !(0 <= index < |list|)
  {
    ListCommandSteps(db, key, LSet(index, value));
  }

  /** LREM deletes exactly the positions that hold the value with fewer matches than the count before them (after
      them, for a negative count), and answers how many those are. */
  lemma LRemIsPositional(db: Db, key: string, count: int, value: string)
    ensures var list := Listed(db, key);
      && ListedAfter(db, key, LRem(count, value)) == L.Survivors(list, L.Doomed(list, count, value))
      && ListReply(db, key, LRem(count, value)) == Number(L.Min(L.Abs(count), L.Occurrences(list, value)))
  {
    ListCommandSteps(db, key, LRem(count, value));
    L.RemoveIsPositional(Listed(db, key), count, value);
  }

  /** LREM from the back is LREM from the front of the reversed list, reversed. */
  lemma LRemDuality(db: Db, mirrored: Db, key: string, count: int, value: string)
    requires count >= 0 && Listed(mirrored, key) == L.Reverse(Listed(db, key))
    ensures ListedAfter(db, key, LRem(-count, value)) == L.Reverse(ListedAfter(mirrored, key, LRem(count, value)))
  {
    ListCommandSteps(db, key, LRem(-count, value));
    ListCommandSteps(mirrored, key, LRem(count, value));
    L.RemoveDuality(Listed(db, key), count, value);
  }

  /** Two LREMs in the same direction are one with the counts added: same state, and the replies add up. */
  lemma LRemAdds(db: Db, key: string, a: int, b: int, value: string)
    requires (a >= 0 && b >= 0) || (a <= 0 && b <= 0)
    ensures var first := Apply(db, OnList(key, LRem(a, value)));
      var second, both := Apply(first.db, OnList(key, LRem(b, value))), Apply(db, OnList(key, LRem(a + b, value)));
      && second.db == both.db
      && first.reply.Number? && second.reply.Number? && both.reply == Number(first.reply.n + second.reply.n)
  {
    hide L.Remove;
    var list := ListAt(db, key);
    L.RemoveAdds(list, a, b, value);
    RemoveNoMore(list, a, value);
    RemoveNoMore(L.Remove(list, a, value), b, value);
    if key !in db.lists {
    } else {
      assert db.lists[key := L.Remove(list, a, value)][key := L.Remove(list, a + b, value)]
          == db.lists[key := L.Remove(list, a + b, value)];
    }
  }

  lemma RemoveNoMore(list: seq<string>, count: int, value: string)
    ensures |L.Remove(list, count, value)| <= |list|
  {
    L.RemoveIsPositional(list, count, value);
  }

  // ------------------------------------------------------------------- hashes

  /** The hash that HGETALL answers with. */
  function Hashed(db: Db, key: string): Fields {
    match Apply(db, OnHash(key, HGetAll)).reply
    case FieldPairs(hash) => hash
    case _ => map[]
  }

  function HashReply(db: Db, key: string, op: HashOp): Reply {
    match Apply(db, OnHash(key, op))
    case Done(_, reply, _) => reply
    case Throws => Nil
  }

  function HashedAfter(db: Db, key: string, op: HashOp): Fields {
    match Apply(db, OnHash(key, op))
    case Done(db', _, _) => Hashed(db', key)
    case Throws => map[]
  }

  lemma HashIsHashed(db: Db, key: string)
    ensures Hashed(db, key) == HashAt(db, key)
  {
  }

  lemma HashCommandSteps(db: Db, key: string, op: HashOp)
    ensures Hashed(db, key) == HashAt(db, key)
    ensures HashReply(db, key, op) == HashStep(Hashed(db, key), op).1
    ensures HashedAfter(db, key, op) == HashStep(Hashed(db, key), op).0
  {
    hide Hashed;
    HashIsHashed(db, key);
    OwnHash(db, key, op);
    HashIsHashed(Apply(db, OnHash(key, op)).db, key);
    hide Apply;
    HashAlwaysAnswers(db, key, op);
  }

  lemma HashAlwaysAnswers(db: Db, key: string, op: HashOp)
    ensures Apply(db, OnHash(key, op)).Done?
  {
  }

  /** HGETALL, HKEYS, HVALS, HLEN, HEXISTS and HGET tell the same story, and none of them changes it. */
  lemma HashReadsAgree(db: Db, key: string, field: string)
    ensures var hash := Hashed(db, key);
      && HashReply(db, key, HGetAll) == FieldPairs(hash)
      && HashReply(db, key, HKeys) == FieldNames(hash) && HashReply(db, key, HVals) == FieldValues(hash)
      && HashReply(db, key, HLen) == Number(|hash|)
      && HashReply(db, key, HExists(field)) == Number(if field in hash then 1 else 0)
      && HashReply(db, key, HGet(field)) ==
        (if field in hash && hash[field] != "" then Value(hash[field]) else Nil)
    ensures forall op :: op in [HGetAll, HKeys, HVals, HLen, HExists(field), HGet(field)] ==>
      HashedAfter(db, key, op) == Hashed(db, key)
    ensures SlotOf(db, key).hash.None? ==> Hashed(db, key) == map[]
  {
    HashCommandSteps(db, key, HGetAll);
    HashCommandSteps(db, key, HKeys);
    HashCommandSteps(db, key, HVals);
    HashCommandSteps(db, key, HLen);
    HashCommandSteps(db, key, HExists(field));
    HashCommandSteps(db, key, HGet(field));
    hide HashedAfter;
    hide HashReply;
    hide Hashed;
  }

  /** HSET, HDEL and HMSET change exactly the fields they name; HSET answers whether the field is new, HDEL whether it
      was there. */
  lemma HashWritesSeen(db: Db, key: string, field: string, value: string, pairs: seq<(string, string)>)
    ensures var hash := Hashed(db, key);
      && HashedAfter(db, key, HSet(field, value)) == hash[field := value]
      && HashReply(db, key, HSet(field, value)) == Number(if field in hash then 0 else 1)
      && HashedAfter(db, key, HDel(field)) == (map f | f in hash && f != field :: hash[f])
      && HashReply(db, key, HDel(field)) == Number(if field in hash then 1 else 0)
      && HashedAfter(db, key, HMSet(pairs)) == SetAll(hash, pairs)
      && HashReply(db, key, HMSet(pairs)) == Simple("OK")
  {
    HashCommandSteps(db, key, HSet(field, value));
    HashCommandSteps(db, key, HDel(field));
    HashCommandSteps(db, key, HMSet(pairs));
  }

  // ------------------------------------------------------------- emptied keys

  /** Commands that can put something under a key that holds nothing. */
  predicate Fills(c: Command, key: string) {
    match c
    case Set(k, _) => k == key
    case Rename(_, newKey) => newKey == key
    case OnList(k, op) => k == key && (op.LPush? || op.RPush?)
    case OnHash(k, op) => k == key && (op.HSet? || op.HMSet?)
    case _ => false
  }

  predicate HoldsNothing(db: Db, key: string) {
    key !in db.kv && ListAt(db, key) == [] && HashAt(db, key) == map[]
  }

  lemma NothingStays(db: Db, c: Command, key: string)
    requires HoldsNothing(db, key) && !Fills(c, key) && Apply(db, c).Done?
    ensures HoldsNothing(Apply(db, c).db, key)
  {
    if c.OnList? && c.key == key {
      EmptyListStays(c.listOp);
    } else if c.OnHash? && c.key == key {
      EmptyHashStays(c.hashOp);
    }
    hide ListStep;
    hide HashStep;
  }

  lemma EmptyListStays(op: ListOp)
    requires !op.LPush? && !op.RPush?
    ensures ListStep([], op).list == []
  {
    if op.LRem? {
      L.RemoveIsPositional([], op.count, op.value);
    }
  }

  lemma EmptyHashStays(op: HashOp)
    requires !op.HSet? && !op.HMSet?
    ensures HashStep(map[], op).0 == map[]
  {
  }

  lemma {:induction false} NothingStaysByRun(db: Db, cs: seq<Command>, key: string)
    requires HoldsNothing(db, key) && Run(db, cs).Ran?
    requires forall i :: 0 <= i < |cs| ==> !Fills(cs[i], key)
    ensures HoldsNothing(Run(db, cs).db, key)
    decreases |cs|
  {
    hide Apply;
    hide HoldsNothing;
    if cs == [] {
    } else {
      NothingStays(db, cs[0], key);
      NothingStaysByRun(Apply(db, cs[0]).db, cs[1..], key);
    }
  }

  lemma NothingRead(db: Db, key: string)
    requires HoldsNothing(db, key)
    ensures Apply(db, Get(key)).reply == Nil
    ensures Listed(db, key) == [] && ListReply(db, key, LLen) == Number(0)
    ensures Hashed(db, key) == map[] && HashReply(db, key, HLen) == Number(0)
  {
    ListReadsAgree(db, key, 0);
    HashReadsAgree(db, key, "");
    ListCommandSteps(db, key, LGet);
    HashCommandSteps(db, key, HGetAll);
  }

  /** After DEL of a key, or FLUSHALL, and any run that puts nothing under the key, reads find nothing there. */
  lemma DeletedStaysEmpty(db: Db, c: Command, cs: seq<Command>, key: string)
    requires c == Del(key) || c == FlushAll
    requires Run(Apply(db, c).db, cs).Ran? && forall i :: 0 <= i < |cs| ==> !Fills(cs[i], key)
    ensures var end := Run(Apply(db, c).db, cs).db;
      && Apply(end, Get(key)).reply == Nil
      && Listed(end, key) == [] && ListReply(end, key, LLen) == Number(0)
      && Hashed(end, key) == map[] && HashReply(end, key, HLen) == Number(0)
  {
    assert HoldsNothing(Apply(db, c).db, key);
    hide HoldsNothing;
    hide Apply;
    hide Run;
    hide Listed;
    hide Hashed;
    NothingStaysByRun(Apply(db, c).db, cs, key);
    NothingRead(Run(Apply(db, c).db, cs).db, key);
  }
}
