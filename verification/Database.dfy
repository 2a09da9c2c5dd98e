/** The singleton database: four unordered maps that every operation edits in place. */
module Databases {
  import opened Bytes
  import opened Decimal
  import opened Store
  import L = Lists
  import P = Persistence

  /** `std::istringstream` as `load` uses it: one non-blank character, then words. */
  class InputStream {
    var rest: string

    constructor (text: string)
      ensures rest == text
    {
      rest := text;
    }

    /** `iss >> c`; at the end of the stream `c` keeps what it held. */
    method ReadChar(held: char) returns (c: char)
      modifies this
      ensures var left := SkipBlanks(old(rest));
        if left == "" then c == held && rest == "" else c == left[0] && rest == left[1..]
    {
      rest := SkipBlanks(rest);
      if rest == "" {
        return held;
      }
      c := rest[0];
      rest := rest[1..];
    }

    /** `iss >> word`; None when the stream has run out. */
    method ReadWord() returns (word: Option<string>)
      modifies this
      ensures Words(old(rest)) == (if word.Some? then [word.value] else []) + Words(rest)
      ensures word.Some? ==> |rest| < |old(rest)|
      ensures word.None? ==> Words(rest) == []
    {
      rest := SkipBlanks(rest);
      if rest == "" {
        return None;
      }
      var n := WordLength(rest);
      word := Some(rest[..n]);
      rest := rest[n..];
    }
  }

  class Database {
    var kvStore: map<string, string>
    var listStore: map<string, seq<string>>
    var hashStore: map<string, Fields>
    var expiryMap: map<string, int>

    ghost function State(): Db
      reads this
    {
      Db(kvStore, listStore, hashStore, expiryMap)
    }

    constructor ()
      ensures State() == EMPTY
    {
      kvStore, listStore, hashStore, expiryMap := map[], map[], map[], map[];
    }

    // --------------------------------------------------------- common commands

    method FlushAll()
      modifies this
      ensures State() == Flushed(old(State()))
    {
      kvStore := map[];
      listStore := map[];
      hashStore := map[];
    }

    method Set(key: string, value: string)
      modifies this
      ensures State() == old(State()).(kv := old(State()).kv[key := value])
    {
      kvStore := kvStore[key := value];
    }

    method Get(key: string) returns (value: Option<string>)
      ensures value == if key in State().kv then Some(State().kv[key]) else None
    {
      if key in kvStore {
        return Some(kvStore[key]);
      }
      return None;
    }

    /** Walks the strings, the lists, and the strings once more; the hashes are never listed. */
    method Keys() returns (keys: seq<string>)
      ensures exists s, l ::
        Enumerates(s, State().kv.Keys) && Enumerates(l, State().lists.Keys) && keys == s + l + s
    {
      var kvOrder := WalkKeys(kvStore);
      var listOrder := WalkKeys(listStore);
      keys := [];
      for i := 0 to |kvOrder|
        invariant keys == kvOrder[..i]
      {
        keys := keys + [kvOrder[i]];
      }
      for i := 0 to |listOrder|
        invariant keys == kvOrder + listOrder[..i]
      {
        keys := keys + [listOrder[i]];
      }
      for i := 0 to |kvOrder|
        invariant keys == kvOrder + listOrder + kvOrder[..i]
      {
        keys := keys + [kvOrder[i]];
      }
      assert keys == kvOrder + listOrder + kvOrder;
    }

    method Type(key: string) returns (name: string)
      ensures name == TypeName(State(), key)
    {
      if key in kvStore {
        return "string";
      }
      if key in listStore {
        return "list";
      }
      if key in hashStore {
        return "hash";
      } else {
        return "none";
      }
    }

    method Del(key: string) returns (erased: bool)
      modifies this
      ensures State() == Deleted(old(State()), key) && erased == Holds(old(State()), key)
    {
      erased := key in kvStore || key in listStore || key in hashStore;
      kvStore := kvStore - {key};
      listStore := listStore - {key};
      hashStore := hashStore - {key};
    }

    /** The seconds are converted only for a key that exists; None is the exception of that conversion,
        thrown before the map is touched. */
    method Expire(key: string, seconds: string, now: int) returns (exist: Option<bool>)
      modifies this`expiryMap
      ensures exist ==
        if !Holds(old(State()), key) then Some(false) else if Stoll(seconds).None? then None else Some(true)
      ensures State() ==
        if exist == Some(true)
        then old(State()).(expiry := old(State()).expiry[key := now + NANOSECONDS * Stoll(seconds).value])
        else old(State())
    {
      if !(key in kvStore || key in listStore || key in hashStore) {
        return Some(false);
      }
      var n := Stoll(seconds);
      if n == None {
        return None;
      }
      expiryMap := expiryMap[key := now + NANOSECONDS * n.value];
      return Some(true);
    }

    method Rename(oldKey: string, newKey: string) returns (found: bool)
      modifies this
      ensures State() == Renamed(old(State()), oldKey, newKey)
      ensures found == (Holds(old(State()), oldKey) || oldKey in old(State()).expiry)
    {
      found := false;
      if oldKey in kvStore {
        kvStore := kvStore[newKey := kvStore[oldKey]];
        kvStore := kvStore - {oldKey};
        found := true;
      }
      if oldKey in listStore {
        listStore := listStore[newKey := listStore[oldKey]];
        listStore := listStore - {oldKey};
        found := true;
      }
      if oldKey in hashStore {
        hashStore := hashStore[newKey := hashStore[oldKey]];
        hashStore := hashStore - {oldKey};
        found := true;
      }
      if oldKey in expiryMap {
        expiryMap := expiryMap[newKey := expiryMap[oldKey]];
        expiryMap := expiryMap - {oldKey};
        found := true;
      }
    }

    // ------------------------------------------------------------------ lists

    /** `list_store[key]`, which inserts an empty list when there is none. */
    method ListRef(key: string) returns (list: seq<string>)
      modifies this`listStore
      ensures list == ListAt(old(State()), key)
      ensures State() == PutList(old(State()), key, list)
    {
      if key !in listStore {
        listStore := listStore[key := []];
      }
      list := listStore[key];
    }

    method LSet(key: string, index: int, value: string) returns (ok: bool)
      modifies this`listStore
      ensures var list := ListAt(old(State()), key);
        ok == (0 <= index < |list|) &&
        State() == PutList(old(State()), key, if ok then list[index := value] else list)
    {
      var list := ListRef(key);
      if index < 0 || index >= |list| {
        return false;
      }
      listStore := listStore[key := list[index := value]];
      return true;
    }

    method LGet(key: string) returns (list: seq<string>)
      modifies this`listStore
      ensures list == ListAt(old(State()), key)
      ensures State() == PutList(old(State()), key, list)
    {
      list := ListRef(key);
    }

    method LLen(key: string) returns (length: nat)
      modifies this`listStore
      ensures length == |ListAt(old(State()), key)|
      ensures State() == PutList(old(State()), key, ListAt(old(State()), key))
    {
      var list := ListRef(key);
      length := |list|;
    }

    method LPush(key: string, values: seq<string>) returns (size: nat)
      modifies this`listStore
      ensures var list := L.Reverse(values) + ListAt(old(State()), key);
        size == |list| && State() == PutList(old(State()), key, list)
    {
      var list := ListRef(key);
      ghost var before := list;
      for i := 0 to |values|
        invariant list == L.Reverse(values[..i]) + before
        invariant State() == PutList(old(State()), key, list)
      {
        list := [values[i]] + list;
        listStore := listStore[key := list];
        assert values[..i + 1][..i] == values[..i];
      }
      assert values[..|values|] == values;
      size := |list|;
    }

    method RPush(key: string, values: seq<string>) returns (size: nat)
      modifies this`listStore
      ensures var list := ListAt(old(State()), key) + values;
        size == |list| && State() == PutList(old(State()), key, list)
    {
      var list := ListRef(key);
      ghost var before := list;
      for i := 0 to |values|
        invariant list == before + values[..i]
        invariant State() == PutList(old(State()), key, list)
      {
        list := list + [values[i]];
        listStore := listStore[key := list];
      }
      assert values[..|values|] == values;
      size := |list|;
    }

    /** The empty string when there is nothing to pop. */
    method LPop(key: string) returns (value: string)
      modifies this`listStore
      ensures var list := ListAt(old(State()), key);
        if list == [] then value == "" && State() == PutList(old(State()), key, [])
        else value == list[0] && State() == PutList(old(State()), key, list[1..])
    {
      var list := ListRef(key);
      if list != [] {
        value := list[0];
        listStore := listStore[key := list[1..]];
        return;
      }
      return "";
    }

    method RPop(key: string) returns (value: string)
      modifies this`listStore
      ensures var list := ListAt(old(State()), key);
        if list == [] then value == "" && State() == PutList(old(State()), key, [])
        else value == list[|list| - 1] && State() == PutList(old(State()), key, list[..|list| - 1])
    {
      var list := ListRef(key);
      if list != [] {
        value := list[|list| - 1];
        listStore := listStore[key := list[..|list| - 1]];
        return;
      }
      return "";
    }

    /** Deletes in place, from the front for a positive count and from the back for a negative one. */
    method LRem(key: string, count: int, value: string) returns (removed: nat)
      modifies this`listStore
      ensures var list := ListAt(old(State()), key);
        var kept := L.Remove(list, count, value);
        removed == |list| - |kept| &&
        State() == if key in old(State()).lists then PutList(old(State()), key, kept) else old(State())
    {
      if key !in listStore {
        return 0;
      }
      if count == 0 {
        return 0;
      } else if count > 0 {
        removed := RemoveForward(key, count, value);
      } else {
        removed := RemoveBackward(key, -count, value);
      }
    }

    method RemoveForward(key: string, max: int, value: string) returns (removed: nat)
      requires key in listStore && max >= 0
      modifies this`listStore
      ensures var list := old(listStore)[key];
        var kept := L.RemoveFirst(list, max, value);
        removed == |list| - |kept| && State() == PutList(old(State()), key, kept)
    {
      hide L.RemoveFirst;
      var it, count: int := 0, max;
      removed := 0;
      ghost var original := listStore[key];
      while it != |listStore[key]| && count > 0
        invariant key in listStore && State() == PutList(old(State()), key, listStore[key])
        invariant it <= |listStore[key]| && count >= 0
        invariant removed == |original| - |listStore[key]|
        invariant L.RemoveFirst(original, max, value)
               == listStore[key][..it] + L.RemoveFirst(listStore[key][it..], count, value)
        decreases |listStore[key]| - it
      {
        var list := listStore[key];
        L.ForwardPass(list, it, count, value);
        if list[it] == value {
          listStore := listStore[key := list[..it] + list[it + 1..]];
          count := count - 1;
          removed := removed + 1;
        } else {
          it := it + 1;
        }
      }
      L.NothingLeft(listStore[key][it..], count, value);
      assert listStore[key][..it] + listStore[key][it..] == listStore[key];
    }

    method RemoveBackward(key: string, max: int, value: string) returns (removed: nat)
      requires key in listStore && max >= 0
      modifies this`listStore
      ensures var list := old(listStore)[key];
        var kept := L.RemoveLast(list, max, value);
        removed == |list| - |kept| && State() == PutList(old(State()), key, kept)
    {
      hide L.RemoveLast;
      var i, count: int := |listStore[key]| - 1, max;
      removed := 0;
      ghost var original := listStore[key];
      assert original[..i + 1] == original;
      while i >= 0 && count > 0
        invariant key in listStore && State() == PutList(old(State()), key, listStore[key])
        invariant -1 <= i < |listStore[key]| && count >= 0
        invariant removed == |original| - |listStore[key]|
        invariant L.RemoveLast(original, max, value)
               == L.RemoveLast(listStore[key][..i + 1], count, value) + listStore[key][i + 1..]
      {
        var list := listStore[key];
        L.BackwardPass(list, i, count, value);
        if list[i] == value {
          listStore := listStore[key := list[..i] + list[i + 1..]];
          count := count - 1;
          removed := removed + 1;
        }
        i := i - 1;
      }
      L.NothingLeft(listStore[key][..i + 1], count, value);
      assert listStore[key][..i + 1] + listStore[key][i + 1..] == listStore[key];
    }

    method LIndex(key: string, index: int) returns (value: string)
      modifies this`listStore
      ensures var list := ListAt(old(State()), key);
        value == (if 0 <= index < |list| then list[index] else "") &&
        State() == PutList(old(State()), key, list)
    {
      var list := ListRef(key);
      if index < 0 || index >= |list| {
        return "";
      }
      return list[index];
    }

    // ----------------------------------------------------------------- hashes

    /** `hash_store[key]`, which inserts an empty hash when there is none. */
    method HashRef(key: string) returns (hash: Fields)
      modifies this`hashStore
      ensures hash == HashAt(old(State()), key)
      ensures State() == PutHash(old(State()), key, hash)
    {
      if key !in hashStore {
        hashStore := hashStore[key := map[]];
      }
      hash := hashStore[key];
    }

    method HSet(key: string, field: string, value: string) returns (added: bool)
      modifies this`hashStore
      ensures var hash := HashAt(old(State()), key);
        added == (field !in hash) && State() == PutHash(old(State()), key, hash[field := value])
    {
      var hash := HashRef(key);
      if field !in hash {
        hashStore := hashStore[key := hash[field := value]];
        return true;
      }
      hashStore := hashStore[key := hash[field := value]];
      return false;
    }

    method HGet(key: string, field: string) returns (value: string)
      ensures value == if field in HashAt(State(), key) then HashAt(State(), key)[field] else ""
    {
      if key !in hashStore {
        return "";
      }
      if field !in hashStore[key] {
        return "";
      }
      return hashStore[key][field];
    }

    method HExists(key: string, field: string) returns (exists': bool)
      ensures exists' == (field in HashAt(State(), key))
    {
      if key !in hashStore {
        return false;
      }
      return field in hashStore[key];
    }

    method HDel(key: string, field: string) returns (deleted: bool)
      modifies this`hashStore
      ensures var hash := HashAt(old(State()), key);
        deleted == (field in hash) &&
        State() == if key in old(State()).hashes then PutHash(old(State()), key, hash - {field}) else old(State())
    {
      if key !in hashStore {
        return false;
      }
      deleted := field in hashStore[key];
      hashStore := hashStore[key := hashStore[key] - {field}];
    }

    method HLen(key: string) returns (length: nat)
      modifies this`hashStore
      ensures length == |HashAt(old(State()), key)|
      ensures State() == PutHash(old(State()), key, HashAt(old(State()), key))
    {
      var hash := HashRef(key);
      length := |hash|;
    }

    method HKeys(key: string) returns (fields: seq<string>)
      modifies this`hashStore
      ensures Enumerates(fields, HashAt(old(State()), key).Keys)
      ensures State() == PutHash(old(State()), key, HashAt(old(State()), key))
    {
      var hash := HashRef(key);
      fields := WalkKeys(hash);
    }

    method HVals(key: string) returns (values: seq<string>)
      modifies this`hashStore
      ensures var hash := HashAt(old(State()), key);
        exists fields :: Enumerates(fields, hash.Keys) && values == ValuesOf(hash, fields)
      ensures State() == PutHash(old(State()), key, HashAt(old(State()), key))
    {
      var hash := HashRef(key);
      var order := WalkKeys(hash);
      values := [];
      for i := 0 to |order|
        invariant values == ValuesOf(hash, order[..i])
      {
        assert order[i] in hash.Keys;
        values := values + [hash[order[i]]];
        assert order[..i + 1][..i] == order[..i];
      }
      assert order[..|order|] == order;
    }

    method HGetAll(key: string) returns (all: Fields)
      modifies this`hashStore
      ensures all == HashAt(old(State()), key)
      ensures State() == PutHash(old(State()), key, HashAt(old(State()), key))
    {
      var hash := HashRef(key);
      var order := WalkKeys(hash);
      all := map[];
      for i := 0 to |order|
        invariant all.Keys == set f | f in order[..i]
        invariant forall f :: f in all ==> f in hash && all[f] == hash[f]
      {
        assert order[i] in hash.Keys;
        assert order[..i + 1] == order[..i] + [order[i]];
        all := all[order[i] := hash[order[i]]];
      }
      assert order[..|order|] == order;
      assert all.Keys == hash.Keys;
    }

    // -------------------------------------------------------------- dump, load

    /** What `dump` leaves in its file: the present entries in some walk order; None, for its `false`, when
        the file does not open. */
    method Dump(opens: bool) returns (file: Option<string>)
      ensures file.Some? <==> opens
      ensures opens ==> exists listing :: P.Lists(listing, State()) && file.value == P.DumpText(listing)
    {
      if !opens {
        return None;
      }
      ghost var ks, ls, hs;
      var strings, lists, hashes;
      strings, ks := DumpStrings(kvStore);
      lists, ls := DumpLists(listStore);
      hashes, hs := DumpHashes(hashStore);
      var ofs := strings + lists + hashes;
      ghost var listing := P.Listing(ks, ls, hs);
      TerminatedAppend(P.Each(P.StringLine, ks), P.Each(P.ListLine, ls));
      TerminatedAppend(P.Each(P.StringLine, ks) + P.Each(P.ListLine, ls), P.Each(P.HashLine, hs));
      assert P.Lists(listing, State()) && ofs == P.DumpText(listing);
      return Some(ofs);
    }

    /** False, and nothing changed, when there is no file to read. */
    method Load(file: Option<string>, junk: P.Junk) returns (ok: bool)
      modifies this
      ensures ok == file.Some?
      ensures State() == if ok then P.Loaded(old(State()), file.value, junk) else old(State())
    {
      hide P.LoadLine;
      hide P.Lines;
      NoLines();
      if file == None {
        return false;
      }
      var text := file.value;
      kvStore := map[];
      listStore := map[];
      hashStore := map[];
      ghost var empty := State();
      assert empty == Flushed(old(State()));
      var ifs := text;
      var i := 0;
      ghost var read: seq<string> := [];
      while ifs != ""
        invariant |read| == i
        invariant read + P.Lines(ifs) == P.Lines(text)
        invariant State() == P.LoadLines(empty, read, junk)
        decreases |ifs|
      {
        FirstLine(ifs);
        var n := P.LineLength(ifs);
        var line := ifs[..n];
        assert P.Lines(text)[|read|] == line;
        ifs := if n == |ifs| then "" else ifs[n + 1..];
        ReadLine(line, junk(i));
        assert (read + [line])[..|read|] == read;
        read := read + [line];
        i := i + 1;
      }
      assert read + [] == read;
      return true;
    }

    method ReadLine(line: string, junk: char)
      modifies this
      ensures State() == P.LoadLine(old(State()), line, junk)
    {
      hide Words;
      var iss := new InputStream(line);
      var kind := iss.ReadChar(junk);
      WordsOfBlank("");
      ghost var ws := Words(iss.rest);
      if kind == 'K' {
        var key := iss.ReadWord();
        var value := iss.ReadWord();
        kvStore := kvStore[Or(key) := Or(value)];
      } else if kind == 'L' {
        var key := iss.ReadWord();
        var list := ReadItems(iss);
        listStore := listStore[Or(key) := list];
        assert list == P.Rest(ws);
      } else if kind == 'H' {
        var key := iss.ReadWord();
        var hash := ReadPairs(iss);
        hashStore := hashStore[Or(key) := hash];
        assert hash == P.HashOfWords(P.Rest(ws));
      }
    }
  }

  /** What one `getline` takes off. */
  lemma FirstLine(s: string)
    requires s != ""
    ensures var n := P.LineLength(s);
      P.Lines(s) == [s[..n]] + P.Lines(if n == |s| then "" else s[n + 1..])
  {
    assert s[..|s|] == s;
  }

  lemma NoLines()
    ensures P.Lines("") == []
  {
  }

  /** A string variable after `iss >> s`: still empty when the read failed. */
  function Or(word: Option<string>): string {
    if word.Some? then word.value else ""
  }

  method ReadItems(iss: InputStream) returns (list: seq<string>)
    modifies iss
    ensures list == Words(old(iss.rest))
  {
    hide Words;
    list := [];
    while true
      invariant list + Words(iss.rest) == Words(old(iss.rest))
      decreases |iss.rest|
    {
      var item := iss.ReadWord();
      if item == None {
        break;
      }
      list := list + [item.value];
    }
  }

  method ReadPairs(iss: InputStream) returns (hash: Fields)
    modifies iss
    ensures hash == P.HashOfWords(Words(old(iss.rest)))
  {
    hide Words;
    hash := map[];
    ghost var read: seq<string> := [];
    while true
      invariant read + Words(iss.rest) == Words(old(iss.rest))
      invariant hash == P.HashOfWords(read)
      decreases |iss.rest|
    {
      var pair := iss.ReadWord();
      if pair == None {
        break;
      }
      var pos := P.ColonAt(pair.value);
      if pos != |pair.value| {
        var field := pair.value[..pos];
        var value := pair.value[pos + 1..];
        hash := hash[field := value];
      }
      assert (read + [pair.value])[..|read|] == read;
      read := read + [pair.value];
    }
    assert read + [] == read;
  }

  /** The values in the order of the fields. */
  function ValuesOf(hash: Fields, fields: seq<string>): seq<string>
    requires forall f :: f in fields ==> f in hash
  {
    if fields == [] then [] else ValuesOf(hash, fields[..|fields| - 1]) + [hash[fields[|fields| - 1]]]
  }

  lemma {:induction false} ValuesLength(hash: Fields, fields: seq<string>)
    requires forall f :: f in fields ==> f in hash
    ensures |ValuesOf(hash, fields)| == |fields|
  {
    if fields == [] {
    } else {
      ValuesLength(hash, fields[..|fields| - 1]);
    }
  }

  // ------------------------------------------------------------- dump's loops

  lemma {:induction false} TerminatedAppend(a: seq<string>, b: seq<string>)
    ensures P.Terminated(a + b) == P.Terminated(a) + P.Terminated(b)
  {
    if b == [] {
      assert a + b == a;
    } else {
      var init, last := b[..|b| - 1], b[|b| - 1];
      assert (a + b)[..|a + b| - 1] == a + init;
      TerminatedAppend(a, init);
    }
  }

  lemma EachSnoc<V>(line: ((string, V)) -> string, entries: P.Entries<V>, entry: (string, V))
    ensures P.Terminated(P.Each(line, entries + [entry])) == P.Terminated(P.Each(line, entries)) + line(entry) + "\n"
  {
    assert (entries + [entry])[..|entries|] == entries;
    var lines := P.Each(line, entries + [entry]);
    assert lines[..|lines| - 1] == P.Each(line, entries);
  }

  lemma {:induction false} KeyOfEntry<V>(entries: P.Entries<V>, key: string)
    requires key in P.MapOf(entries)
    ensures exists i :: 0 <= i < |entries| && entries[i].0 == key
  {
    var n := |entries| - 1;
    if entries[n].0 == key {
    } else {
      KeyOfEntry(entries[..n], key);
      var i :| 0 <= i < n && entries[..n][i].0 == key;
      assert entries[i].0 == key;
    }
  }

  /** Entries read off along a walk give the map back. */
  lemma WalkGivesMap<V>(entries: P.Entries<V>, order: seq<string>, m: map<string, V>)
    requires Enumerates(order, m.Keys) && |entries| == |order|
    requires forall i :: 0 <= i < |order| ==> order[i] in m && entries[i] == (order[i], m[order[i]])
    ensures P.DistinctKeys(entries) && P.MapOf(entries) == m
  {
    forall k | k in P.MapOf(entries)
      ensures k in m
    {
      KeyOfEntry(entries, k);
    }
    forall k | k in m
      ensures k in P.MapOf(entries) && P.MapOf(entries)[k] == m[k]
    {
      assert k in m.Keys;
      var i :| 0 <= i < |order| && order[i] == k;
      P.EntryInMap(entries, i);
    }
  }

  method DumpStrings(m: map<string, string>) returns (ofs: string, ghost entries: P.Entries<string>)
    ensures ofs == P.Terminated(P.Each(P.StringLine, entries))
    ensures P.DistinctKeys(entries) && P.MapOf(entries) == m
  {
    var order := WalkKeys(m);
    ofs, entries := "", [];
    for i := 0 to |order|
      invariant ofs == P.Terminated(P.Each(P.StringLine, entries))
      invariant |entries| == i && forall j :: 0 <= j < i ==> order[j] in m && entries[j] == (order[j], m[order[j]])
    {
      assert order[i] in m.Keys;
      EachSnoc(P.StringLine, entries, (order[i], m[order[i]]));
      entries := entries + [(order[i], m[order[i]])];
      ofs := ofs + ("K " + order[i] + " " + m[order[i]]) + "\n";
    }
    WalkGivesMap(entries, order, m);
  }

  method DumpLists(m: map<string, seq<string>>) returns (ofs: string, ghost entries: P.Entries<seq<string>>)
    ensures ofs == P.Terminated(P.Each(P.ListLine, entries))
    ensures P.DistinctKeys(entries) && P.MapOf(entries) == m
  {
    var order := WalkKeys(m);
    ofs, entries := "", [];
    for i := 0 to |order|
      invariant ofs == P.Terminated(P.Each(P.ListLine, entries))
      invariant |entries| == i && forall j :: 0 <= j < i ==> order[j] in m && entries[j] == (order[j], m[order[j]])
    {
      assert order[i] in m.Keys;
      var list := m[order[i]];
      var line := "L " + order[i];
      for j := 0 to |list|
        invariant line == "L " + order[i] + P.Spaced(list[..j])
      {
        line := line + " " + list[j];
        assert list[..j + 1][..j] == list[..j];
      }
      assert list[..|list|] == list;
      EachSnoc(P.ListLine, entries, (order[i], list));
      entries := entries + [(order[i], list)];
      ofs := ofs + line + "\n";
    }
    WalkGivesMap(entries, order, m);
  }

  /** The pairs of one hash, in the order of a walk of its own. */
  method DumpPairs(hash: Fields) returns (text: string, ghost pairs: P.Entries<string>)
    ensures text == P.Spaced(P.PairTexts(pairs))
    ensures P.DistinctKeys(pairs) && P.MapOf(pairs) == hash
  {
    var order := WalkKeys(hash);
    text, pairs := "", [];
    for i := 0 to |order|
      invariant text == P.Spaced(P.PairTexts(pairs))
      invariant |pairs| == i && forall j :: 0 <= j < i ==> order[j] in hash && pairs[j] == (order[j], hash[order[j]])
    {
      assert order[i] in hash.Keys;
      PairSnoc(pairs, (order[i], hash[order[i]]));
      pairs := pairs + [(order[i], hash[order[i]])];
      text := text + " " + (order[i] + ":" + hash[order[i]]);
    }
    WalkGivesMap(pairs, order, hash);
  }

  lemma PairSnoc(pairs: P.Entries<string>, pair: (string, string))
    ensures P.Spaced(P.PairTexts(pairs + [pair])) == P.Spaced(P.PairTexts(pairs)) + " " + P.PairText(pair)
  {
    assert (pairs + [pair])[..|pairs|] == pairs;
    var texts := P.PairTexts(pairs + [pair]);
    assert texts[..|texts| - 1] == P.PairTexts(pairs);
  }

  method DumpHashes(m: map<string, Fields>) returns (ofs: string, ghost entries: P.Entries<P.Entries<string>>)
    ensures ofs == P.Terminated(P.Each(P.HashLine, entries))
    ensures P.DistinctKeys(entries) && P.HashesOf(entries) == m
    ensures forall i :: 0 <= i < |entries| ==> P.DistinctKeys(entries[i].1)
  {
    var order := WalkKeys(m);
    ofs, entries := "", [];
    for i := 0 to |order|
      invariant ofs == P.Terminated(P.Each(P.HashLine, entries))
      invariant |entries| == i && forall j :: 0 <= j < i ==>
        order[j] in m && entries[j].0 == order[j] &&
        P.DistinctKeys(entries[j].1) && P.MapOf(entries[j].1) == m[order[j]]
    {
      assert order[i] in m.Keys;
      ghost var pairs;
      var text;
      text, pairs := DumpPairs(m[order[i]]);
      EachSnoc(P.HashLine, entries, (order[i], pairs));
      entries := entries + [(order[i], pairs)];
      ofs := ofs + ("H " + order[i] + text) + "\n";
    }
    WalkGivesHashes(entries, order, m);
  }

  lemma {:induction false} KeyOfHash(entries: P.Entries<P.Entries<string>>, key: string)
    requires key in P.HashesOf(entries)
    ensures exists i :: 0 <= i < |entries| && entries[i].0 == key
  {
    var n := |entries| - 1;
    if entries[n].0 == key {
    } else {
      KeyOfHash(entries[..n], key);
      var i :| 0 <= i < n && entries[..n][i].0 == key;
      assert entries[i].0 == key;
    }
  }

  lemma WalkGivesHashes(entries: P.Entries<P.Entries<string>>, order: seq<string>, m: map<string, Fields>)
    requires Enumerates(order, m.Keys) && |entries| == |order|
    requires forall i :: 0 <= i < |order| ==>
      order[i] in m && entries[i].0 == order[i] && P.MapOf(entries[i].1) == m[order[i]]
    ensures P.DistinctKeys(entries) && P.HashesOf(entries) == m
  {
    forall k | k in P.HashesOf(entries)
      ensures k in m
    {
      KeyOfHash(entries, k);
    }
    forall k | k in m
      ensures k in P.HashesOf(entries) && P.HashesOf(entries)[k] == m[k]
    {
      assert k in m.Keys;
      var i :| 0 <= i < |order| && order[i] == k;
      P.EntryInHashes(entries, i);
    }
  }
}
