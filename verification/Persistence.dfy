/** The dump file: what `dump` writes, what `load` reads back, and when the two agree. */
module Persistence {
  import opened Bytes
  import opened Store

  // -------------------------------------------------------------- dumping

  type Entries<V> = seq<(string, V)>

  /** One order in which `dump` may walk the three maps and each hash. */
  datatype Listing = Listing(strings: Entries<string>, lists: Entries<seq<string>>,
                             hashes: Entries<Entries<string>>)

  /** The map holding the entries; a later one replaces an earlier one. */
  function MapOf<V>(entries: Entries<V>): map<string, V> {
    if entries == [] then map[]
    else MapOf(entries[..|entries| - 1])[entries[|entries| - 1].0 := entries[|entries| - 1].1]
  }

  function HashesOf(entries: Entries<Entries<string>>): map<string, Fields> {
    if entries == [] then map[]
    else HashesOf(entries[..|entries| - 1])[entries[|entries| - 1].0 := MapOf(entries[|entries| - 1].1)]
  }

  ghost predicate DistinctKeys<V>(entries: Entries<V>) {
    forall i, j :: 0 <= i < j < |entries| ==> entries[i].0 != entries[j].0
  }

  /** The listing is a walk over exactly the entries of `db`, each once. */
  ghost predicate Lists(l: Listing, db: Db) {
    && DistinctKeys(l.strings) && MapOf(l.strings) == db.kv
    && DistinctKeys(l.lists) && MapOf(l.lists) == db.lists
    && DistinctKeys(l.hashes) && HashesOf(l.hashes) == db.hashes
    && forall i :: 0 <= i < |l.hashes| ==> DistinctKeys(l.hashes[i].1)
  }

  /** Each item after one space. */
  function Spaced(items: seq<string>): string {
    if items == [] then "" else Spaced(items[..|items| - 1]) + " " + items[|items| - 1]
  }

  function PairText(pair: (string, string)): string {
    pair.0 + ":" + pair.1
  }

  function PairTexts(pairs: Entries<string>): seq<string> {
    if pairs == [] then [] else PairTexts(pairs[..|pairs| - 1]) + [PairText(pairs[|pairs| - 1])]
  }

  function StringLine(entry: (string, string)): string {
    "K " + entry.0 + " " + entry.1
  }

  function ListLine(entry: (string, seq<string>)): string {
    "L " + entry.0 + Spaced(entry.1)
  }

  function HashLine(entry: (string, Entries<string>)): string {
    "H " + entry.0 + Spaced(PairTexts(entry.1))
  }

  function Each<V>(line: ((string, V)) -> string, entries: Entries<V>): (lines: seq<string>)
    ensures |lines| == |entries|
  {
    if entries == [] then [] else Each(line, entries[..|entries| - 1]) + [line(entries[|entries| - 1])]
  }

  function DumpLines(l: Listing): seq<string> {
    Each(StringLine, l.strings) + Each(ListLine, l.lists) + Each(HashLine, l.hashes)
  }

  /** Every line with its line feed. */
  function Terminated(lines: seq<string>): string {
    if lines == [] then "" else Terminated(lines[..|lines| - 1]) + lines[|lines| - 1] + "\n"
  }

  function DumpText(l: Listing): string {
    Terminated(DumpLines(l))
  }

  // -------------------------------------------------------------- loading

  function LineLength(s: string): (n: nat)
    ensures n <= |s|
  {
    if s == "" || s[0] == '\n' then 0 else 1 + LineLength(s[1..])
  }

  /** What repeated `getline` calls deliver; text after the last line feed is a line if not empty. */
  function Lines(s: string): seq<string>
    decreases |s|
  {
    if s == "" then []
    else if LineLength(s) == |s| then [s]
    else [s[..LineLength(s)]] + Lines(s[LineLength(s) + 1..])
  }

  /** The i-th word, or the empty string left in place when the stream has run out. */
  function WordAt(ws: seq<string>, i: nat): string {
    if i < |ws| then ws[i] else ""
  }

  function Rest(ws: seq<string>): seq<string> {
    if ws == [] then [] else ws[1..]
  }

  /** `find(':')`. */
  function ColonAt(s: string): (n: nat)
    ensures n <= |s|
  {
    if s == "" || s[0] == ':' then 0 else 1 + ColonAt(s[1..])
  }

  /** A pair without a colon is dropped. */
  function AddPair(hash: Fields, pair: string): Fields {
    var pos := ColonAt(pair);
    if pos == |pair| then hash else hash[pair[..pos] := pair[pos + 1..]]
  }

  function HashOfWords(ws: seq<string>): Fields {
    if ws == [] then map[] else AddPair(HashOfWords(ws[..|ws| - 1]), ws[|ws| - 1])
  }

  function LoadWords(db: Db, kind: char, ws: seq<string>): Db {
    if kind == 'K' then db.(kv := db.kv[WordAt(ws, 0) := WordAt(ws, 1)])
    else if kind == 'L' then PutList(db, WordAt(ws, 0), Rest(ws))
    else if kind == 'H' then PutHash(db, WordAt(ws, 0), HashOfWords(Rest(ws)))
    else db
  }

  predicate NonBlank(line: string) {
    SkipBlanks(line) != ""
  }

  /** What the uninitialised `type` holds when each line is reached. It is read only on a blank line, where
      `iss >> type` fails and leaves it alone; nothing is assumed about it. */
  type Junk = nat -> char

  /** One line: `iss >> type` takes the first non-blank character, words follow. On a blank line `type` is
      whatever it was, and no words are left. */
  function LoadLine(db: Db, line: string, junk: char): Db {
    if NonBlank(line) then LoadWords(db, SkipBlanks(line)[0], Words(SkipBlanks(line)[1..]))
    else LoadWords(db, junk, [])
  }

  predicate NoneBlank(lines: seq<string>) {
    forall i :: 0 <= i < |lines| ==> NonBlank(lines[i])
  }

  function LoadLines(db: Db, lines: seq<string>, junk: Junk): Db {
    if lines == [] then db
    else LoadLine(LoadLines(db, lines[..|lines| - 1], junk), lines[|lines| - 1], junk(|lines| - 1))
  }

  /** `load` clears the three stores and reads the file; the expiry map is left alone. */
  function Loaded(db: Db, text: string, junk: Junk): Db {
    LoadLines(Flushed(db), Lines(text), junk)
  }

  // -------------------------------------------------------- representability

  predicate NoColon(s: string) {
    ColonAt(s) == |s|
  }

  ghost predicate PlainStrings(kv: map<string, string>) {
    forall k :: k in kv ==> Plain(k) && Plain(kv[k]) && (k == "" ==> kv[k] == "")
  }

  ghost predicate PlainLists(lists: map<string, seq<string>>) {
    forall k :: k in lists ==> Plain(k) && AllWords(lists[k]) && (k == "" ==> lists[k] == [])
  }

  ghost predicate PlainFields(hash: Fields) {
    forall f :: f in hash ==> Plain(f) && NoColon(f) && Plain(hash[f])
  }

  ghost predicate PlainHashes(hashes: map<string, Fields>) {
    forall k :: k in hashes ==> Plain(k) && PlainFields(hashes[k]) && (k == "" ==> hashes[k] == map[])
  }

  /** The databases a dump file can carry: no whitespace anywhere, no empty list item, no colon in a hash
      field, and nothing but emptiness under the empty key. */
  ghost predicate Representable(db: Db) {
    PlainStrings(db.kv) && PlainLists(db.lists) && PlainHashes(db.hashes)
  }

  // ------------------------------------------------------------ the range of load

  lemma {:induction false} ColonSplits(s: string)
    ensures NoColon(s[..ColonAt(s)])
    ensures ColonAt(s) < |s| ==> s[ColonAt(s)] == ':'
  {
    if s == "" || s[0] == ':' {
    } else {
      ColonSplits(s[1..]);
      assert s[..ColonAt(s)][1..] == s[1..][..ColonAt(s[1..])];
    }
  }

  lemma {:induction false} HashOfWordsPlain(ws: seq<string>)
    requires AllWords(ws)
    ensures PlainFields(HashOfWords(ws))
  {
    if ws == [] {
    } else {
      HashOfWordsPlain(ws[..|ws| - 1]);
      ColonSplits(ws[|ws| - 1]);
    }
  }

  lemma LoadLineRepresentable(db: Db, line: string, junk: char)
    requires Representable(db)
    ensures Representable(LoadLine(db, line, junk))
  {
    if NonBlank(line) {
      WordsAreWords(SkipBlanks(line)[1..]);
      LoadWordsRepresentable(db, SkipBlanks(line)[0], Words(SkipBlanks(line)[1..]));
    } else {
      LoadWordsRepresentable(db, junk, []);
    }
  }

  lemma LoadWordsRepresentable(db: Db, kind: char, ws: seq<string>)
    requires Representable(db) && AllWords(ws)
    ensures Representable(LoadWords(db, kind, ws))
  {
    hide HashOfWords;
    hide PlainStrings;
    hide PlainLists;
    hide PlainHashes;
    assert ws != [] ==> Word(ws[0]);
    assert |ws| > 1 ==> Word(ws[1]);
    assert AllWords(Rest(ws));
    PutStringPlain(db.kv, WordAt(ws, 0), WordAt(ws, 1));
    PutListPlain(db.lists, WordAt(ws, 0), Rest(ws));
    HashOfWordsPlain(Rest(ws));
    NoWordsNoHash();
    PutHashPlain(db.hashes, WordAt(ws, 0), HashOfWords(Rest(ws)));
  }

  lemma PutStringPlain(kv: map<string, string>, key: string, value: string)
    requires PlainStrings(kv) && Plain(key) && Plain(value) && (key == "" ==> value == "")
    ensures PlainStrings(kv[key := value])
  {
  }

  lemma PutListPlain(lists: map<string, seq<string>>, key: string, list: seq<string>)
    requires PlainLists(lists) && Plain(key) && AllWords(list) && (key == "" ==> list == [])
    ensures PlainLists(lists[key := list])
  {
  }

  lemma PutHashPlain(hashes: map<string, Fields>, key: string, hash: Fields)
    requires PlainHashes(hashes) && Plain(key) && PlainFields(hash) && (key == "" ==> hash == map[])
    ensures PlainHashes(hashes[key := hash])
  {
  }

  lemma NoWordsNoHash()
    ensures HashOfWords([]) == map[]
  {
  }

  lemma {:induction false} LoadLinesRepresentable(db: Db, lines: seq<string>, junk: Junk)
    requires Representable(db)
    ensures Representable(LoadLines(db, lines, junk))
  {
    if lines == [] {
    } else {
      var init := LoadLines(db, lines[..|lines| - 1], junk);
      LoadLinesRepresentable(db, lines[..|lines| - 1], junk);
      LoadLineRepresentable(init, lines[|lines| - 1], junk(|lines| - 1));
    }
  }

  /** Whatever file is read, duplicate keys, missing values, colon-less pairs, unknown line types and blank
      lines included, the result is representable. */
  lemma LoadedIsRepresentable(db: Db, text: string, junk: Junk)
    ensures Representable(Loaded(db, text, junk))
  {
    LoadLinesRepresentable(Flushed(db), Lines(text), junk);
  }

  // ------------------------------------------------------------ lines of a dump

  predicate OneLine(s: string) {
    forall i :: 0 <= i < |s| ==> s[i] != '\n'
  }

  lemma {:induction false} MeasuresLine(line: string, rest: string)
    requires OneLine(line)
    ensures LineLength(line + "\n" + rest) == |line|
  {
    var s := line + "\n" + rest;
    if line == "" {
    } else {
      assert s[1..] == line[1..] + "\n" + rest;
      MeasuresLine(line[1..], rest);
    }
  }

  lemma LinesCons(line: string, rest: string)
    requires OneLine(line)
    ensures Lines(line + "\n" + rest) == [line] + Lines(rest)
  {
    var s := line + "\n" + rest;
    MeasuresLine(line, rest);
    assert s[..|line|] == line && s[|line| + 1..] == rest;
  }

  lemma {:induction false} LinesOfTerminated(lines: seq<string>, rest: string)
    requires forall i :: 0 <= i < |lines| ==> OneLine(lines[i])
    ensures Lines(Terminated(lines) + rest) == lines + Lines(rest)
  {
    if lines == [] {
      assert Terminated(lines) + rest == rest;
    } else {
      var init, last := lines[..|lines| - 1], lines[|lines| - 1];
      assert Terminated(lines) + rest == Terminated(init) + (last + "\n" + rest);
      LinesOfTerminated(init, last + "\n" + rest);
      LinesCons(last, rest);
    }
  }

  lemma {:induction false} SpacedOneLine(items: seq<string>)
    requires AllWords(items)
    ensures OneLine(Spaced(items))
  {
    if items == [] {
    } else {
      SpacedOneLine(items[..|items| - 1]);
      assert Word(items[|items| - 1]);
    }
  }

  lemma {:induction false} WordsOfSpaced(items: seq<string>, tail: string)
    requires AllWords(items)
    requires tail == "" || IsSpace(tail[0])
    ensures Words(Spaced(items) + tail) == items + Words(tail)
  {
    hide Words;
    if items == [] {
      assert Spaced(items) + tail == tail;
    } else {
      var init, last := items[..|items| - 1], items[|items| - 1];
      assert Spaced(items) + tail == Spaced(init) + (" " + last + tail);
      WordsOfSpaced(init, " " + last + tail);
      WordsCons(" ", last, tail);
    }
  }

  // ----------------------------------------------- each kind of line read back

  predicate PlainString(entry: (string, string)) {
    Plain(entry.0) && Plain(entry.1) && (entry.0 == "" ==> entry.1 == "")
  }

  predicate PlainList(entry: (string, seq<string>)) {
    Plain(entry.0) && AllWords(entry.1) && (entry.0 == "" ==> entry.1 == [])
  }

  predicate PlainPairs(pairs: Entries<string>) {
    forall i :: 0 <= i < |pairs| ==> Plain(pairs[i].0) && NoColon(pairs[i].0) && Plain(pairs[i].1)
  }

  predicate PlainHash(entry: (string, Entries<string>)) {
    Plain(entry.0) && PlainPairs(entry.1) && (entry.0 == "" ==> entry.1 == [])
  }

  /** A line made of a letter and spaced text: the letter is the type, the text gives the words. */
  lemma LoadTypedLine(db: Db, kind: char, text: string, junk: char)
    requires !IsSpace(kind)
    ensures NonBlank([kind] + text)
    ensures LoadLine(db, [kind] + text, junk) == LoadWords(db, kind, Words(text))
  {
    assert SkipBlanks([kind] + text) == [kind] + text;
    assert ([kind] + text)[1..] == text;
  }

  /** The words of a key and the spaced items after it. */
  lemma WordsOfKeyed(key: string, items: seq<string>)
    requires Plain(key) && AllWords(items) && (key == "" ==> items == [])
    ensures Words(" " + key + Spaced(items)) == if key == "" then [] else [key] + items
  {
    if key == "" {
      assert " " + key + Spaced(items) == " ";
      WordsOfBlank(" ");
    } else {
      SpacedStart(items);
      WordsCons(" ", key, Spaced(items));
      WordsOfSpaced(items, "");
      assert Spaced(items) + "" == Spaced(items);
      WordsOfBlank("");
    }
  }

  lemma {:induction false} SpacedStart(items: seq<string>)
    ensures Spaced(items) == "" || IsSpace(Spaced(items)[0])
  {
    if items == [] {
    } else {
      SpacedStart(items[..|items| - 1]);
    }
  }

  lemma LoadStringLine(db: Db, entry: (string, string), junk: char)
    requires PlainString(entry)
    ensures OneLine(StringLine(entry)) && NonBlank(StringLine(entry))
    ensures LoadLine(db, StringLine(entry), junk) == db.(kv := db.kv[entry.0 := entry.1])
  {
    hide Words;
    hide LoadLine;
    hide NonBlank;
    var text := " " + entry.0 + " " + entry.1;
    assert StringLine(entry) == ['K'] + text;
    LoadTypedLine(db, 'K', text, junk);
    if entry.1 == "" {
      if entry.0 == "" {
        WordsOfBlank(text);
      } else {
        WordsCons(" ", entry.0, " ");
        WordsOfBlank(" ");
        assert text == " " + entry.0 + " ";
      }
    } else {
      assert [entry.1][..0] == [];
      assert Spaced([entry.1]) == " " + entry.1 by {
        assert Spaced([entry.1]) == "" + " " + entry.1;
      }
      assert text == " " + entry.0 + Spaced([entry.1]);
      WordsOfKeyed(entry.0, [entry.1]);
    }
  }

  lemma LoadListLine(db: Db, entry: (string, seq<string>), junk: char)
    requires PlainList(entry)
    ensures OneLine(ListLine(entry)) && NonBlank(ListLine(entry))
    ensures LoadLine(db, ListLine(entry), junk) == PutList(db, entry.0, entry.1)
  {
    hide Words;
    hide LoadLine;
    hide NonBlank;
    var text := " " + entry.0 + Spaced(entry.1);
    assert ListLine(entry) == ['L'] + text;
    LoadTypedLine(db, 'L', text, junk);
    WordsOfKeyed(entry.0, entry.1);
    SpacedOneLine(entry.1);
  }

  lemma {:induction false} ColonFound(field: string, value: string)
    requires NoColon(field)
    ensures ColonAt(field + ":" + value) == |field|
  {
    if field == "" {
    } else {
      assert (field + ":" + value)[1..] == field[1..] + ":" + value;
      ColonFound(field[1..], value);
    }
  }

  lemma {:induction false} PairTextsWords(pairs: Entries<string>)
    requires PlainPairs(pairs)
    ensures AllWords(PairTexts(pairs)) && HashOfWords(PairTexts(pairs)) == MapOf(pairs)
  {
    if pairs == [] {
    } else {
      var init, last := pairs[..|pairs| - 1], pairs[|pairs| - 1];
      PairTextsWords(init);
      var text := PairText(last);
      ColonFound(last.0, last.1);
      assert text[..|last.0|] == last.0 && text[|last.0| + 1..] == last.1;
      assert PairTexts(pairs)[..|PairTexts(pairs)| - 1] == PairTexts(init);
    }
  }

  lemma LoadHashLine(db: Db, entry: (string, Entries<string>), junk: char)
    requires PlainHash(entry)
    ensures OneLine(HashLine(entry)) && NonBlank(HashLine(entry))
    ensures LoadLine(db, HashLine(entry), junk) == PutHash(db, entry.0, MapOf(entry.1))
  {
    hide Words;
    hide LoadLine;
    hide NonBlank;
    var items := PairTexts(entry.1);
    var text := " " + entry.0 + Spaced(items);
    assert HashLine(entry) == ['H'] + text;
    PairTextsWords(entry.1);
    LoadTypedLine(db, 'H', text, junk);
    WordsOfKeyed(entry.0, items);
    SpacedOneLine(items);
  }

  // ------------------------------------------------------------ whole dumps

  /** A line with a type of its own does not read the leftover one. */
  lemma NoJunkRead(db: Db, line: string, junk: char, other: char)
    requires NonBlank(line)
    ensures LoadLine(db, line, junk) == LoadLine(db, line, other)
  {
  }

  lemma {:induction false} LoadLinesAppend(db: Db, a: seq<string>, b: seq<string>, junk: Junk)
    requires NoneBlank(b)
    ensures NoneBlank(a) ==> NoneBlank(a + b)
    ensures LoadLines(db, a + b, junk) == LoadLines(LoadLines(db, a, junk), b, junk)
  {
    hide LoadLine;
    if b == [] {
      assert a + b == a;
    } else {
      assert (a + b)[..|a + b| - 1] == a + b[..|b| - 1];
      LoadLinesAppend(db, a, b[..|b| - 1], junk);
      NoJunkRead(LoadLines(db, a + b[..|b| - 1], junk), b[|b| - 1], junk(|a + b| - 1), junk(|b| - 1));
    }
  }

  ghost predicate GoodLines(lines: seq<string>) {
    NoneBlank(lines) && forall i :: 0 <= i < |lines| ==> OneLine(lines[i])
  }

  lemma {:induction false} LoadStrings(db: Db, entries: Entries<string>, junk: Junk)
    requires forall i :: 0 <= i < |entries| ==> PlainString(entries[i])
    ensures GoodLines(Each(StringLine, entries))
    ensures LoadLines(db.(kv := map[]), Each(StringLine, entries), junk) == db.(kv := MapOf(entries))
  {
    hide LoadLine;
    hide NonBlank;
    if entries == [] {
    } else {
      var init, last := entries[..|entries| - 1], entries[|entries| - 1];
      LoadStrings(db, init, junk);
      LoadStringLine(db.(kv := MapOf(init)), last, junk(|init|));
      assert Each(StringLine, entries)[..|Each(StringLine, entries)| - 1] == Each(StringLine, init);
    }
  }

  lemma {:induction false} LoadLists(db: Db, entries: Entries<seq<string>>, junk: Junk)
    requires forall i :: 0 <= i < |entries| ==> PlainList(entries[i])
    ensures GoodLines(Each(ListLine, entries))
    ensures LoadLines(db.(lists := map[]), Each(ListLine, entries), junk) == db.(lists := MapOf(entries))
  {
    hide LoadLine;
    hide NonBlank;
    if entries == [] {
    } else {
      var init, last := entries[..|entries| - 1], entries[|entries| - 1];
      LoadLists(db, init, junk);
      LoadListLine(db.(lists := MapOf(init)), last, junk(|init|));
      assert Each(ListLine, entries)[..|Each(ListLine, entries)| - 1] == Each(ListLine, init);
    }
  }

  lemma {:induction false} LoadHashes(db: Db, entries: Entries<Entries<string>>, junk: Junk)
    requires forall i :: 0 <= i < |entries| ==> PlainHash(entries[i])
    ensures GoodLines(Each(HashLine, entries))
    ensures LoadLines(db.(hashes := map[]), Each(HashLine, entries), junk) == db.(hashes := HashesOf(entries))
  {
    hide LoadLine;
    hide NonBlank;
    if entries == [] {
    } else {
      var init, last := entries[..|entries| - 1], entries[|entries| - 1];
      LoadHashes(db, init, junk);
      LoadHashLine(db.(hashes := HashesOf(init)), last, junk(|init|));
      assert Each(HashLine, entries)[..|Each(HashLine, entries)| - 1] == Each(HashLine, init);
    }
  }

  /** With distinct keys every entry is in the map. */
  lemma {:induction false} EntryInMap<V>(entries: Entries<V>, i: nat)
    requires DistinctKeys(entries) && i < |entries|
    ensures entries[i].0 in MapOf(entries) && MapOf(entries)[entries[i].0] == entries[i].1
  {
    if i >= |entries| - 1 {
    } else {
      EntryInMap(entries[..|entries| - 1], i);
    }
  }

  lemma {:induction false} EntryInHashes(entries: Entries<Entries<string>>, i: nat)
    requires DistinctKeys(entries) && i < |entries|
    ensures entries[i].0 in HashesOf(entries) && HashesOf(entries)[entries[i].0] == MapOf(entries[i].1)
  {
    if i >= |entries| - 1 {
    } else {
      EntryInHashes(entries[..|entries| - 1], i);
    }
  }

  lemma ListingIsPlain(l: Listing, db: Db)
    requires Lists(l, db) && Representable(db)
    ensures forall i :: 0 <= i < |l.strings| ==> PlainString(l.strings[i])
    ensures forall i :: 0 <= i < |l.lists| ==> PlainList(l.lists[i])
    ensures forall i :: 0 <= i < |l.hashes| ==> PlainHash(l.hashes[i])
  {
    forall i | 0 <= i < |l.strings| ensures PlainString(l.strings[i]) {
      EntryInMap(l.strings, i);
    }
    forall i | 0 <= i < |l.lists| ensures PlainList(l.lists[i]) {
      EntryInMap(l.lists, i);
    }
    forall i | 0 <= i < |l.hashes| ensures PlainHash(l.hashes[i]) {
      EntryInHashes(l.hashes, i);
      var pairs := l.hashes[i].1;
      forall j | 0 <= j < |pairs|
        ensures Plain(pairs[j].0) && NoColon(pairs[j].0) && Plain(pairs[j].1) && pairs[j].0 in MapOf(pairs)
      {
        EntryInMap(pairs, j);
      }
    }
  }

  lemma RepresentableRoundTrip(l: Listing, db: Db, now: Db, junk: Junk)
    requires Lists(l, db) && Representable(db)
    ensures Loaded(now, DumpText(l), junk) == db.(expiry := now.expiry)
  {
    hide LoadLine;
    hide NonBlank;
    hide Each;
    ListingIsPlain(l, db);
    var d0 := Flushed(now);
    var d1 := d0.(kv := db.kv);
    var d2 := d1.(lists := db.lists);
    var ks, ls, hs := Each(StringLine, l.strings), Each(ListLine, l.lists), Each(HashLine, l.hashes);
    LoadStrings(d0, l.strings, junk);
    LoadLists(d1, l.lists, junk);
    LoadHashes(d2, l.hashes, junk);
    LoadLinesAppend(d0, ks, ls, junk);
    LoadLinesAppend(d0, ks + ls, hs, junk);
    LinesOfTerminated(DumpLines(l), "");
    assert DumpText(l) + "" == DumpText(l);
    assert Lines(DumpText(l)) == DumpLines(l);
  }

  /** The round trip holds exactly on the representable databases, for every order in which the maps are
      walked: `load` gives back the three stores, and only then. */
  lemma RoundTripIffRepresentable(l: Listing, db: Db, now: Db, junk: Junk)
    requires Lists(l, db)
    ensures Loaded(now, DumpText(l), junk) == db.(expiry := now.expiry) <==> Representable(db)
  {
    if Representable(db) {
      RepresentableRoundTrip(l, db, now, junk);
    } else {
      LoadedIsRepresentable(now, DumpText(l), junk);
    }
  }

  /** Loading normalises: dumping what any file loaded to, in any order, and loading again changes nothing. */
  lemma LoadNormalises(text: string, db: Db, l: Listing, junk: Junk, again: Junk)
    requires Lists(l, Loaded(db, text, junk))
    ensures Loaded(db, DumpText(l), again) == Loaded(db, text, junk)
  {
    LoadedIsRepresentable(db, text, junk);
    RepresentableRoundTrip(l, Loaded(db, text, junk), db, again);
    LoadKeepsExpiry(Flushed(db), Lines(text), junk);
  }

  lemma {:induction false} LoadKeepsExpiry(db: Db, lines: seq<string>, junk: Junk)
    ensures LoadLines(db, lines, junk).expiry == db.expiry
  {
    if lines == [] {
    } else {
      LoadKeepsExpiry(db, lines[..|lines| - 1], junk);
    }
  }

  /** Two hashes that differ in where a pair is split are written alike. */
  lemma SplitIsInvisible(key: string, f: string, g: string, v: string)
    ensures DumpText(Listing([], [], [(key, [(f + ":" + g, v)])]))
         == DumpText(Listing([], [], [(key, [(f, g + ":" + v)])]))
  {
    hide Terminated;
    var pairs: Entries<string> := [(f + ":" + g, v)];
    var same: Entries<string> := [(f, g + ":" + v)];
    assert PairText(pairs[0]) == PairText(same[0]);
    OnePair(pairs[0]);
    OnePair(same[0]);
    OneHash((key, pairs));
    OneHash((key, same));
  }

  lemma OnePair(pair: (string, string))
    ensures PairTexts([pair]) == [PairText(pair)] && MapOf([pair]) == map[pair.0 := pair.1]
  {
    assert [pair][..0] == [];
  }

  lemma OneHash(entry: (string, Entries<string>))
    ensures Each(HashLine, [entry]) == [HashLine(entry)] && HashesOf([entry]) == map[entry.0 := MapOf(entry.1)]
  {
    assert [entry][..0] == [];
  }

  /** So a hash field with a colon does not survive: it comes back cut at its first colon, the rest of it moved
      into the value. */
  lemma ColonFieldIsSplit(key: string, f: string, g: string, v: string, now: Db, junk: Junk)
    requires Word(key) && Plain(f) && NoColon(f) && Plain(g) && Plain(v)
    ensures var text := DumpText(Listing([], [], [(key, [(f + ":" + g, v)])]));
      Loaded(now, text, junk).hashes == map[key := map[f := g + ":" + v]]
  {
    hide DumpText;
    hide Loaded;
    SplitIsInvisible(key, f, g, v);
    var same: Entries<string> := [(f, g + ":" + v)];
    OnePair(same[0]);
    OneHash((key, same));
    var db := Db(map[], map[], map[key := map[f := g + ":" + v]], map[]);
    RepresentableRoundTrip(Listing([], [], [(key, same)]), db, now, junk);
  }
}
