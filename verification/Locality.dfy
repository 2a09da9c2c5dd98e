/** Single-key commands factor through their key, so commands and runs on different keys commute. */
module Locality {
  import opened Bytes
  import opened Decimal
  import opened Store
  import opened Commands
  import opened Runs

  /** What the four maps hold under one key. */
  datatype Slot = Slot(str: Option<string>, list: Option<seq<string>>, hash: Option<Fields>, deadline: Option<int>)

  function Lookup<V>(m: map<string, V>, key: string): Option<V> {
    if key in m then Some(m[key]) else None
  }

  function SlotOf(db: Db, key: string): Slot {
    Slot(Lookup(db.kv, key), Lookup(db.lists, key), Lookup(db.hashes, key), Lookup(db.expiry, key))
  }

  /** The key of a single-key command. */
  function KeyOf(c: Command): Option<string> {
    match c
    case Set(key, _) => Some(key)
    case Get(key) => Some(key)
    case Type(key) => Some(key)
    case Del(key) => Some(key)
    case Expire(key, _, _) => Some(key)
    case OnList(key, _) => Some(key)
    case OnHash(key, _) => Some(key)
    case _ => None
  }

  lemma SameMap<V>(a: map<string, V>, b: map<string, V>)
    requires forall k :: Lookup(a, k) == Lookup(b, k)
    ensures a == b
  {
    forall k
      ensures k in a <==> k in b
      ensures k in a ==> a[k] == b[k]
    {
      assert Lookup(a, k) == Lookup(b, k);
    }
  }

  /** Databases with the same slots are the same. */
  lemma SameSlots(a: Db, b: Db)
    requires forall k :: SlotOf(a, k) == SlotOf(b, k)
    ensures a == b
  {
    forall k
      ensures Lookup(a.kv, k) == Lookup(b.kv, k) && Lookup(a.lists, k) == Lookup(b.lists, k)
      ensures Lookup(a.hashes, k) == Lookup(b.hashes, k) && Lookup(a.expiry, k) == Lookup(b.expiry, k)
    {
      assert SlotOf(a, k) == SlotOf(b, k);
    }
    SameMap(a.kv, b.kv);
    SameMap(a.lists, b.lists);
    SameMap(a.hashes, b.hashes);
    SameMap(a.expiry, b.expiry);
  }

  /** A single-key command leaves every other slot alone. */
  lemma WritesOnlyItsKey(db: Db, c: Command, key: string)
    requires KeyOf(c).Some? && key != KeyOf(c).value && Apply(db, c).Done?
    ensures SlotOf(Apply(db, c).db, key) == SlotOf(db, key)
  {
    hide ListStep;
    hide HashStep;
  }

  /** Both throw, or both answer alike and leave equal slots. */
  ghost predicate SameFor(x: Outcome, y: Outcome, key: string) {
    && x.Done? == y.Done?
    && (x.Done? ==> x.reply == y.reply && x.marks == y.marks && SlotOf(x.db, key) == SlotOf(y.db, key))
  }

  /** Its reply, its increments and its new slot depend on nothing but its own slot. */
  lemma ReadsOnlyItsKey(a: Db, b: Db, c: Command)
    requires KeyOf(c).Some? && SlotOf(a, KeyOf(c).value) == SlotOf(b, KeyOf(c).value)
    ensures SameFor(Apply(a, c), Apply(b, c), KeyOf(c).value)
  {
    if c.OnList? {
      hide SlotOf;
      ListReadsOnlyItsKey(a, b, c.key, c.listOp);
    } else if c.OnHash? {
      hide SlotOf;
      HashReadsOnlyItsKey(a, b, c.key, c.hashOp);
    } else {
      hide Apply;
      hide SlotOf;
      StringReadsOnlyItsKey(a, b, c);
    }
  }

  lemma StringReadsOnlyItsKey(a: Db, b: Db, c: Command)
    requires c.Set? || c.Get? || c.Type? || c.Del? || c.Expire?
    requires SlotOf(a, c.key) == SlotOf(b, c.key)
    ensures SameFor(Apply(a, c), Apply(b, c), c.key)
  {
    hide ApplyList;
    hide ApplyHash;
    hide Stoll;
    SameParts(a, b, c.key);
  }

  lemma SameParts(a: Db, b: Db, key: string)
    requires SlotOf(a, key) == SlotOf(b, key)
    ensures (key in a.kv <==> key in b.kv) && (key in a.kv ==> a.kv[key] == b.kv[key])
    ensures (key in a.lists <==> key in b.lists) && ListAt(a, key) == ListAt(b, key)
    ensures (key in a.hashes <==> key in b.hashes) && HashAt(a, key) == HashAt(b, key)
  {
  }

  lemma ListReadsOnlyItsKey(a: Db, b: Db, key: string, op: ListOp)
    requires SlotOf(a, key) == SlotOf(b, key)
    ensures SameFor(ApplyList(a, key, op), ApplyList(b, key, op), key)
  {
    hide ListStep;
    SameParts(a, b, key);
  }

  lemma HashReadsOnlyItsKey(a: Db, b: Db, key: string, op: HashOp)
    requires SlotOf(a, key) == SlotOf(b, key)
    ensures SameFor(ApplyHash(a, key, op), ApplyHash(b, key, op), key)
  {
    hide HashStep;
    SameParts(a, b, key);
  }

  /** Two commands on different keys commute: same final state, same two replies. */
  lemma CommandsCommute(db: Db, c: Command, d: Command)
    requires KeyOf(c).Some? && KeyOf(d).Some? && KeyOf(c) != KeyOf(d)
    requires Apply(db, c).Done? && Apply(db, d).Done?
    ensures var cd := Apply(Apply(db, c).db, d);
      var dc := Apply(Apply(db, d).db, c);
      cd.Done? && dc.Done? && cd.db == dc.db &&
      cd.reply == Apply(db, d).reply && dc.reply == Apply(db, c).reply
  {
    hide Apply;
    hide SlotOf;
    var x, y := Apply(db, c).db, Apply(db, d).db;
    WritesOnlyItsKey(db, c, KeyOf(d).value);
    WritesOnlyItsKey(db, d, KeyOf(c).value);
    ReadsOnlyItsKey(x, db, d);
    ReadsOnlyItsKey(y, db, c);
    var xy, yx := Apply(x, d).db, Apply(y, c).db;
    forall k
      ensures SlotOf(xy, k) == SlotOf(yx, k)
    {
      if k != KeyOf(c).value {
        WritesOnlyItsKey(db, c, k);
        WritesOnlyItsKey(y, c, k);
      }
      if k != KeyOf(d).value {
        WritesOnlyItsKey(db, d, k);
        WritesOnlyItsKey(x, d, k);
      }
    }
    SameSlots(xy, yx);
  }

  // ------------------------------------------------------------------ whole runs

  ghost predicate OnKeys(cs: seq<Command>, keys: set<string>) {
    forall i :: 0 <= i < |cs| ==> KeyOf(cs[i]).Some? && KeyOf(cs[i]).value in keys
  }

  /** A run over some keys started in two states that agree on those keys. */
  lemma {:induction false} RunReadsOnlyItsKeys(a: Db, b: Db, cs: seq<Command>, keys: set<string>)
    requires OnKeys(cs, keys) && forall k :: k in keys ==> SlotOf(a, k) == SlotOf(b, k)
    ensures match (Run(a, cs), Run(b, cs))
            case (Ran(a', rs), Ran(b', rs')) =>
              rs == rs' && forall k :: k in keys ==> SlotOf(a', k) == SlotOf(b', k)
            case (Crashed, Crashed) => true
            case _ => false
    decreases |cs|
  {
    hide Apply;
    hide SlotOf;
    if cs == [] {
    } else {
      var key := KeyOf(cs[0]).value;
      ReadsOnlyItsKey(a, b, cs[0]);
      if Apply(a, cs[0]).Done? {
        var a', b' := Apply(a, cs[0]).db, Apply(b, cs[0]).db;
        forall k | k in keys
          ensures SlotOf(a', k) == SlotOf(b', k)
        {
          if k != key {
            WritesOnlyItsKey(a, cs[0], k);
            WritesOnlyItsKey(b, cs[0], k);
          }
        }
        RunReadsOnlyItsKeys(a', b', cs[1..], keys);
      }
    }
  }

  lemma {:induction false} RunWritesOnlyItsKeys(db: Db, cs: seq<Command>, keys: set<string>, key: string)
    requires OnKeys(cs, keys) && key !in keys && Run(db, cs).Ran?
    ensures SlotOf(Run(db, cs).db, key) == SlotOf(db, key)
    decreases |cs|
  {
    hide Apply;
    hide SlotOf;
    if cs == [] {
    } else {
      WritesOnlyItsKey(db, cs[0], key);
      RunWritesOnlyItsKeys(Apply(db, cs[0]).db, cs[1..], keys, key);
    }
  }

  /** Whole runs over disjoint sets of keys commute: each gives the replies it would have given alone, and
      either order ends in the same state. */
  lemma RunsCommute(db: Db, xs: seq<Command>, ys: seq<Command>, kx: set<string>, ky: set<string>)
    requires OnKeys(xs, kx) && OnKeys(ys, ky) && kx !! ky
    requires Run(db, xs).Ran? && Run(db, ys).Ran?
    ensures var xy := Run(Run(db, xs).db, ys);
      var yx := Run(Run(db, ys).db, xs);
      xy.Ran? && yx.Ran? && xy.db == yx.db &&
      xy.replies == Run(db, ys).replies && yx.replies == Run(db, xs).replies
  {
    hide Run;
    hide SlotOf;
    hide OnKeys;
    var x, y := Run(db, xs).db, Run(db, ys).db;
    forall k | k in ky ensures SlotOf(x, k) == SlotOf(db, k) {
      RunWritesOnlyItsKeys(db, xs, kx, k);
    }
    forall k | k in kx ensures SlotOf(y, k) == SlotOf(db, k) {
      RunWritesOnlyItsKeys(db, ys, ky, k);
    }
    RunReadsOnlyItsKeys(x, db, ys, ky);
    RunReadsOnlyItsKeys(y, db, xs, kx);
    var xy, yx := Run(x, ys).db, Run(y, xs).db;
    forall k
      ensures SlotOf(xy, k) == SlotOf(yx, k)
    {
      if k !in kx {
        RunWritesOnlyItsKeys(db, xs, kx, k);
        RunWritesOnlyItsKeys(y, xs, kx, k);
      }
      if k !in ky {
        RunWritesOnlyItsKeys(db, ys, ky, k);
        RunWritesOnlyItsKeys(x, ys, ky, k);
      }
    }
    SameSlots(xy, yx);
  }

  // ------------------------------------------------------------------ RENAME

  const VOID: Slot := Slot(None, None, None, None)

  /** A slot laid over another: map by map, what the first holds wins. */
  function Over(s: Slot, t: Slot): Slot {
    Slot(if s.str.Some? then s.str else t.str, if s.list.Some? then s.list else t.list,
         if s.hash.Some? then s.hash else t.hash, if s.deadline.Some? then s.deadline else t.deadline)
  }

  /** RENAME moves the whole slot: the old key ends up empty, the new one takes over whatever the old one
      held in each map and keeps the rest, and every third key is untouched. With equal keys the
      entries are lost. */
  lemma RenameMoves(db: Db, a: string, b: string, key: string)
    ensures SlotOf(Renamed(db, a, b), key) ==
            if key == a then VOID
            else if key == b then Over(SlotOf(db, a), SlotOf(db, b))
            else SlotOf(db, key)
  {
  }

  /** a to b to c is a to c when b holds nothing. */
  lemma RenameComposes(db: Db, a: string, b: string, c: string)
    requires a != b && b != c && a != c && SlotOf(db, b) == VOID
    ensures Renamed(Renamed(db, a, b), b, c) == Renamed(db, a, c)
  {
    hide SlotOf;
    var x, y := Renamed(Renamed(db, a, b), b, c), Renamed(db, a, c);
    forall k
      ensures SlotOf(x, k) == SlotOf(y, k)
    {
      RenameMoves(Renamed(db, a, b), b, c, k);
      RenameMoves(db, a, b, k);
      RenameMoves(db, a, b, b);
      RenameMoves(db, a, b, c);
      RenameMoves(db, a, c, k);
    }
    SameSlots(x, y);
  }

  /** a to b and back is the identity exactly when b held nothing. */
  lemma RenameUndone(db: Db, a: string, b: string)
    requires a != b
    ensures Renamed(Renamed(db, a, b), b, a) == db <==> SlotOf(db, b) == VOID
  {
    hide SlotOf;
    var back := Renamed(Renamed(db, a, b), b, a);
    RenameMoves(Renamed(db, a, b), b, a, b);
    if SlotOf(db, b) == VOID {
      forall k
        ensures SlotOf(back, k) == SlotOf(db, k)
      {
        RenameMoves(Renamed(db, a, b), b, a, k);
        RenameMoves(db, a, b, k);
        RenameMoves(db, a, b, b);
        RenameMoves(db, a, b, a);
      }
      SameSlots(back, db);
    }
  }
}
