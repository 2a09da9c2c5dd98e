/** The four maps as one value, and the enumeration orders of an unordered map. */
module Store {
  type Fields = map<string, string>

  datatype Db = Db(kv: map<string, string>, lists: map<string, seq<string>>,
                   hashes: map<string, Fields>, expiry: map<string, int>)

  const EMPTY: Db := Db(map[], map[], map[], map[])

  /** `list_store[key]` and `hash_store[key]`: a missing entry counts as empty. */
  function ListAt(db: Db, key: string): seq<string> {
    if key in db.lists then db.lists[key] else []
  }

  function HashAt(db: Db, key: string): Fields {
    if key in db.hashes then db.hashes[key] else map[]
  }

  /** `operator[]` leaves an entry behind even when the caller only reads. */
  function PutList(db: Db, key: string, list: seq<string>): Db {
    db.(lists := db.lists[key := list])
  }

  function PutHash(db: Db, key: string, hash: Fields): Db {
    db.(hashes := db.hashes[key := hash])
  }

  function Flushed(db: Db): Db {
    EMPTY.(expiry := db.expiry)
  }

  predicate Holds(db: Db, key: string) {
    key in db.kv || key in db.lists || key in db.hashes
  }

  function TypeName(db: Db, key: string): string {
    if key in db.kv then "string"
    else if key in db.lists then "list"
    else if key in db.hashes then "hash"
    else "none"
  }

  function Deleted(db: Db, key: string): Db {
    db.(kv := db.kv - {key}, lists := db.lists - {key}, hashes := db.hashes - {key})
  }

  /** Copy to the new key, then erase the old one: equal keys lose the entry. */
  function Moved<V>(m: map<string, V>, oldKey: string, newKey: string): map<string, V> {
    if oldKey in m then m[newKey := m[oldKey]] - {oldKey} else m
  }

  function Renamed(db: Db, oldKey: string, newKey: string): Db {
    Db(Moved(db.kv, oldKey, newKey), Moved(db.lists, oldKey, newKey),
       Moved(db.hashes, oldKey, newKey), Moved(db.expiry, oldKey, newKey))
  }

  /** The HMSET loop: one HSET after another. */
  function SetAll(hash: Fields, pairs: seq<(string, string)>): Fields {
    if pairs == [] then hash
    else SetAll(hash, pairs[..|pairs| - 1])[pairs[|pairs| - 1].0 := pairs[|pairs| - 1].1]
  }

  /** Clock ticks in a second. */
  const NANOSECONDS: int := 1_000_000_000

  // ------------------------------------------------------------ enumeration

  ghost predicate Distinct<T>(s: seq<T>) {
    forall i, j :: 0 <= i < j < |s| ==> s[i] != s[j]
  }

  /** `order` lists each key once: some order in which an unordered map may be walked. */
  ghost predicate Enumerates(order: seq<string>, keys: set<string>) {
    Distinct(order) && forall k :: k in keys <==> k in order
  }

  lemma {:induction false} EnumerationSize(order: seq<string>, keys: set<string>)
    requires Enumerates(order, keys)
    ensures |order| == |keys|
  {
    if order == [] {
      assert keys == {};
    } else {
      var n := |order| - 1;
      assert forall k :: k in order <==> k in order[..n] || k == order[n];
      assert order[n] !in order[..n];
      EnumerationSize(order[..n], keys - {order[n]});
    }
  }

  /** A range-based for over an unordered map: the keys in some order. */
  method WalkKeys<V>(m: map<string, V>) returns (order: seq<string>)
    ensures Enumerates(order, m.Keys)
  {
    order := [];
    var left := m.Keys;
    while left != {}
      invariant Distinct(order)
      invariant forall k :: k in m.Keys <==> k in order || k in left
      invariant forall k :: k in left ==> k !in order
      decreases |left|
    {
      var k :| k in left;
      ghost var before := order;
      order := order + [k];
      assert forall x :: x in order <==> x in before || x == k;
      left := left - {k};
    }
  }
}
