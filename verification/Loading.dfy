/** What any file loads to, said of its lines and words, and what a dump looks like. */
module Loading {
  import opened Bytes
  import opened Store
  import opened Persistence

  // ------------------------------------------------------------------- lines

  /** Lines hold no line feed. */
  lemma {:induction false} LinesAreLines(text: string)
    ensures forall i :: 0 <= i < |Lines(text)| ==> OneLine(Lines(text)[i])
    decreases |text|
  {
    if text == "" {
    } else {
      var n := LineLength(text);
      StopsAtFeed(text);
      LinesStep(text);
      LinesAreLines(if n == |text| then "" else text[n + 1..]);
    }
  }

  /** Put together again they are the text, up to a last line feed. */
  lemma {:induction false} LinesJoined(text: string)
    ensures Joined(Lines(text)) == text || Joined(Lines(text)) == text + "\n"
    decreases |text|
  {
    hide Joined;
    NoLinesJoined();
    if text == "" {
    } else {
      var n := LineLength(text);
      LinesStep(text);
      StopsAtFeed(text);
      hide Lines;
      hide LineLength;
      if n == |text| {
        JoinedCons(text, Lines(""));
        assert text[..n] == text;
        assert text + "\n" + "" == text + "\n";
      } else {
        var line, rest := text[..n], text[n + 1..];
        LinesJoined(rest);
        JoinedCons(line, Lines(rest));
        CutAtFeed(text, n);
      }
    }
  }

  lemma CutAtFeed(text: string, n: nat)
    requires n < |text| && text[n] == '\n'
    ensures text[..n] + "\n" + text[n + 1..] == text
    ensures text[..n] + "\n" + (text[n + 1..] + "\n") == text + "\n"
  {
  }

  lemma LinesStep(text: string)
    requires text != ""
    ensures var n := LineLength(text);
      Lines(text) == [text[..n]] + Lines(if n == |text| then "" else text[n + 1..])
  {
    assert text[..|text|] == text;
  }

  lemma JoinedCons(line: string, lines: seq<string>)
    ensures Joined([line] + lines) == line + "\n" + Joined(lines)
  {
    assert ([line] + lines)[1..] == lines;
  }

  lemma NoLinesJoined()
    ensures Joined(Lines("")) == ""
  {
  }

  /** Each line and its line feed. */
  function Joined(lines: seq<string>): string {
    if lines == [] then "" else lines[0] + "\n" + Joined(lines[1..])
  }

  lemma {:induction false} StopsAtFeed(s: string)
    ensures OneLine(s[..LineLength(s)]) && (LineLength(s) < |s| ==> s[LineLength(s)] == '\n')
  {
    if s == "" || s[0] == '\n' {
    } else {
      StopsAtFeed(s[1..]);
      assert s[..LineLength(s)] == [s[0]] + s[1..][..LineLength(s[1..])];
    }
  }

  /** The type of a line, its first character that is not blank; on a blank line whatever the variable held. */
  function Kind(line: string, junk: char): char {
    if NonBlank(line) then SkipBlanks(line)[0] else junk
  }

  /** The words after the type letter, which may stand against the first of them. */
  function WordsAfter(line: string): seq<string> {
    if NonBlank(line) then Words(SkipBlanks(line)[1..]) else []
  }

  function Nth(ws: seq<string>, i: nat): string {
    if i < |ws| then ws[i] else ""
  }

  function SecondWord(line: string): string {
    Nth(WordsAfter(line), 1)
  }

  function WordsAfterKey(line: string): seq<string> {
    if WordsAfter(line) == [] then [] else WordsAfter(line)[1..]
  }

  function FieldsAfterKey(line: string): Fields {
    HashOfWords(WordsAfterKey(line))
  }

  /** Line i has this type and this key. */
  predicate Names(lines: seq<string>, junk: Junk, kind: char, key: string, i: nat)
    requires i < |lines|
  {
    Kind(lines[i], junk(i)) == kind && Nth(WordsAfter(lines[i]), 0) == key
  }

  /** Line i is the last one of this type and key. */
  predicate NamesLast(lines: seq<string>, junk: Junk, kind: char, key: string, i: nat)
    requires i < |lines|
  {
    Names(lines, junk, kind, key, i) && forall j :: i < j < |lines| ==> !Names(lines, junk, kind, key, j)
  }

  /** A key is in the store exactly when a line of that type names it, and the last such line says what it holds. */
  ghost predicate LastLineDecides<V>(m: map<string, V>, lines: seq<string>, junk: Junk, kind: char, key: string,
                                     value: string -> V) {
    && (key in m <==> exists i :: 0 <= i < |lines| && Names(lines, junk, kind, key, i))
    && forall i :: 0 <= i < |lines| && NamesLast(lines, junk, kind, key, i) ==> key in m && m[key] == value(lines[i])
  }

  lemma OneMoreLine<V>(m: map<string, V>, m': map<string, V>, lines: seq<string>, junk: Junk, kind: char, key: string,
                       value: string -> V)
    requires lines != [] && LastLineDecides(m, lines[..|lines| - 1], junk, kind, key, value)
    requires var last := lines[|lines| - 1];
      m' == if Kind(last, junk(|lines| - 1)) == kind then m[Nth(WordsAfter(last), 0) := value(last)] else m
    ensures LastLineDecides(m', lines, junk, kind, key, value)
  {
    hide WordsAfter;
    hide Kind;
    hide Nth;
    var n := |lines| - 1;
    var init := lines[..n];
    forall i | 0 <= i < n
      ensures Names(lines, junk, kind, key, i) == Names(init, junk, kind, key, i)
    {
      assert lines[i] == init[i];
    }
    forall i | 0 <= i < n && NamesLast(lines, junk, kind, key, i)
      ensures NamesLast(init, junk, kind, key, i) && lines[i] == init[i]
    {
      assert forall j :: i < j < n ==> !Names(lines, junk, kind, key, j);
    }
    if Names(lines, junk, kind, key, n) {
    } else {
      assert key in m' <==> key in m;
      assert key in m ==> m'[key] == m[key];
    }
  }

  lemma LineIsWords(db: Db, line: string, junk: char)
    ensures LoadLine(db, line, junk) == LoadWords(db, Kind(line, junk), WordsAfter(line))
  {
    hide LoadWords;
  }

  /** What one line does to the three stores. */
  lemma LineLoaded(db: Db, line: string, junk: char)
    ensures var after, kind, key := LoadLine(db, line, junk), Kind(line, junk), Nth(WordsAfter(line), 0);
      && after.kv == (if kind == 'K' then db.kv[key := SecondWord(line)] else db.kv)
      && after.lists == (if kind == 'L' then db.lists[key := WordsAfterKey(line)] else db.lists)
      && after.hashes == (if kind == 'H' then db.hashes[key := FieldsAfterKey(line)] else db.hashes)
  {
    hide HashOfWords;
    hide WordsAfter;
    hide Kind;
    hide LoadLine;
    LineIsWords(db, line, junk);
  }

  /** Line by line: a K line gives its key the second word, or the empty string, and later words do not count; an L
      line gives the words after the key; an H line the fields of the words after the key. Keys are those
      named, later lines replace earlier ones, and other lines do nothing. */
  lemma {:induction false} LinesLoaded(db: Db, lines: seq<string>, junk: Junk, key: string)
    requires db.kv == map[] && db.lists == map[] && db.hashes == map[]
    ensures var after := LoadLines(db, lines, junk);
      && LastLineDecides(after.kv, lines, junk, 'K', key, SecondWord)
      && LastLineDecides(after.lists, lines, junk, 'L', key, WordsAfterKey)
      && LastLineDecides(after.hashes, lines, junk, 'H', key, FieldsAfterKey)
  {
    if lines == [] {
    } else {
      hide LoadLine;
      hide LastLineDecides;
      hide WordsAfter;
      hide Kind;
      hide Nth;
      hide SecondWord;
      hide WordsAfterKey;
      hide FieldsAfterKey;
      var n := |lines| - 1;
      var before, after := LoadLines(db, lines[..n], junk), LoadLines(db, lines, junk);
      LinesLoaded(db, lines[..n], junk, key);
      LineLoaded(before, lines[n], junk(n));
      OneMoreLine(before.kv, after.kv, lines, junk, 'K', key, SecondWord);
      OneMoreLine(before.lists, after.lists, lines, junk, 'L', key, WordsAfterKey);
      OneMoreLine(before.hashes, after.hashes, lines, junk, 'H', key, FieldsAfterKey);
    }
  }

  /** The same for a whole file, whatever was in the database before; deadlines are kept. */
  lemma FileLoaded(db: Db, text: string, junk: Junk, key: string)
    ensures var after, lines := Loaded(db, text, junk), Lines(text);
      && LastLineDecides(after.kv, lines, junk, 'K', key, SecondWord)
      && LastLineDecides(after.lists, lines, junk, 'L', key, WordsAfterKey)
      && LastLineDecides(after.hashes, lines, junk, 'H', key, FieldsAfterKey)
      && after.expiry == db.expiry
  {
    hide LastLineDecides;
    hide LoadLines;
    LinesLoaded(Flushed(db), Lines(text), junk, key);
    LoadKeepsExpiry(Flushed(db), Lines(text), junk);
  }

  // ------------------------------------------------------------------- fields

  /** The word is the field, a colon and a rest, and the field has no colon. */
  predicate SetsField(word: string, field: string) {
    && |field| < |word| && word[..|field|] == field && word[|field|] == ':'
    && forall i :: 0 <= i < |field| ==> field[i] != ':'
  }

  predicate SetsLast(ws: seq<string>, i: nat, field: string)
    requires i < |ws|
  {
    SetsField(ws[i], field) && forall j :: i < j < |ws| ==> !SetsField(ws[j], field)
  }

  lemma {:induction false} ColonIsFirst(s: string)
    ensures forall i :: 0 <= i < ColonAt(s) ==> s[i] != ':'
    ensures ColonAt(s) < |s| ==> s[ColonAt(s)] == ':'
  {
    if s == "" || s[0] == ':' {
    } else {
      ColonIsFirst(s[1..]);
    }
  }

  lemma {:induction false} NoColonSearch(s: string)
    requires forall i :: 0 <= i < |s| ==> s[i] != ':'
    ensures NoColon(s)
  {
    if s == "" {
    } else {
      NoColonSearch(s[1..]);
    }
  }

  lemma SetsFieldAtColon(word: string, field: string)
    ensures SetsField(word, field) <==> ColonAt(word) < |word| && word[..ColonAt(word)] == field
  {
    ColonIsFirst(word);
    if SetsField(word, field) {
      var rest := word[|field| + 1..];
      NoColonSearch(field);
      ColonFound(field, rest);
      assert word == field + ":" + rest;
    }
  }

  lemma PairSetsField(hash: Fields, word: string, field: string)
    ensures field in AddPair(hash, word) <==> SetsField(word, field) || field in hash
    ensures SetsField(word, field) ==> |field| < |word| && AddPair(hash, word)[field] == word[|field| + 1..]
    ensures !SetsField(word, field) && field in hash ==> AddPair(hash, word)[field] == hash[field]
  {
    hide SetsField;
    SetsFieldAtColon(word, field);
    assert SetsField(word, field) ==> |field| == ColonAt(word);
  }

  /** A field is in the hash of an H line exactly when one of the words sets it, and its value is what follows the colon
      in the last such word. Words without a colon do nothing. */
  lemma {:induction false} WordsSetFields(ws: seq<string>, field: string)
    ensures LastWordDecides(HashOfWords(ws), ws, field)
  {
    if ws == [] {
    } else {
      hide AddPair;
      hide LastWordDecides;
      var n := |ws| - 1;
      WordsSetFields(ws[..n], field);
      OneMoreWord(HashOfWords(ws[..n]), ws, field);
    }
  }

  /** The field is there exactly when a word sets it, with the value of the last such word. */
  ghost predicate LastWordDecides(hash: Fields, ws: seq<string>, field: string) {
    && (field in hash <==> exists i :: 0 <= i < |ws| && SetsField(ws[i], field))
    && forall i :: 0 <= i < |ws| && SetsLast(ws, i, field) ==>
      |field| < |ws[i]| && field in hash && hash[field] == ws[i][|field| + 1..]
  }

  lemma OneMoreWord(hash: Fields, ws: seq<string>, field: string)
    requires ws != [] && LastWordDecides(hash, ws[..|ws| - 1], field)
    ensures LastWordDecides(AddPair(hash, ws[|ws| - 1]), ws, field)
  {
    hide AddPair;
    hide SetsField;
    var n := |ws| - 1;
    var init := ws[..n];
    PairSetsField(hash, ws[n], field);
    assert forall i :: 0 <= i < n ==> ws[i] == init[i];
    if !SetsField(ws[n], field) {
      forall i | 0 <= i < n && SetsLast(ws, i, field)
        ensures SetsLast(init, i, field)
      {
        assert forall j :: i < j < n ==> !SetsField(init[j], field);
      }
    }
  }

  /** So under a key of the hashes is what the words of its last H line set, each field by the last word setting it. */
  lemma FieldsLoaded(db: Db, text: string, junk: Junk, key: string, i: nat, field: string)
    requires i < |Lines(text)| && NamesLast(Lines(text), junk, 'H', key, i)
    ensures var after, words := Loaded(db, text, junk).hashes, WordsAfterKey(Lines(text)[i]);
      key in after && LastWordDecides(after[key], words, field)
  {
    hide NamesLast;
    hide Loaded;
    hide WordsAfterKey;
    FileLoaded(db, text, junk, key);
    WordsSetFields(WordsAfterKey(Lines(text)[i]), field);
  }

  // --------------------------------------------------------------- the dump text

  /** The items of a list or hash, each after one space. */
  lemma {:induction false} SpacedIsInterleaved(items: seq<string>)
    ensures Spaced(items) == Interleave(seq(|items|, i => " "), items)
  {
    if items == [] {
    } else {
      var n := |items| - 1;
      SpacedIsInterleaved(items[..n]);
      InterleavedSnoc(seq(n, i => " "), items[..n], items[n]);
      assert seq(n, i => " ") + [" "] == seq(|items|, i => " ");
      assert items[..n] + [items[n]] == items;
    }
  }

  lemma {:induction false} InterleavedSnoc(seps: seq<string>, items: seq<string>, item: string)
    requires |seps| == |items|
    ensures Interleave(seps + [" "], items + [item]) == Interleave(seps, items) + " " + item
  {
    if items == [] {
      assert ([] + [item])[1..] == [];
      assert Interleave([" "], [item]) == " " + item + Interleave([], []);
    } else {
      assert (seps + [" "])[1..] == seps[1..] + [" "] && (items + [item])[1..] == items[1..] + [item];
      InterleavedSnoc(seps[1..], items[1..], item);
      assert seps[0] + items[0] + (Interleave(seps[1..], items[1..]) + " " + item)
          == Interleave(seps, items) + " " + item;
    }
  }

  const SMALL: Listing := Listing([("k", "v")], [("l", ["a", "b"])], [("h", [("f", "x")])])

  lemma SmallLines()
    ensures DumpLines(SMALL) == ["K k v", "L l a b", "H h f:x"]
  {
    var pairs: Entries<string> := [("f", "x")];
    OneEach(StringLine, ("k", "v"));
    OneEach(ListLine, ("l", ["a", "b"]));
    OneHash(("h", pairs));
    OnePair(("f", "x"));
    hide Each;
    hide PairTexts;
    TwoSpaced("a", "b");
    OneSpaced("f:x");
    hide Spaced;
    assert PairText(("f", "x")) == "f:x";
    assert StringLine(("k", "v")) == "K k v";
    assert ListLine(("l", ["a", "b"])) == "L l a b";
    assert HashLine(("h", pairs)) == "H h f:x";
  }

  lemma OneSpaced(a: string)
    ensures Spaced([a]) == " " + a
  {
    assert [a][..0] == [];
    assert Spaced([a]) == "" + " " + a;
  }

  lemma TwoSpaced(a: string, b: string)
    ensures Spaced([a, b]) == " " + a + " " + b
  {
    assert [a, b][..1] == [a];
    OneSpaced(a);
  }

  lemma ThreeTerminated(a: string, b: string, c: string)
    ensures Terminated([a, b, c]) == a + "\n" + b + "\n" + c + "\n"
  {
    assert [a, b, c][..2] == [a, b] && [a, b][..1] == [a] && [a][..0] == [];
    assert Terminated([a]) == "" + a + "\n";
    assert "" + a == a;
  }

  /** A dump written out. */
  lemma SmallDump()
    ensures DumpText(SMALL) == "K k v\nL l a b\nH h f:x\n"
  {
    hide DumpLines;
    hide Terminated;
    SmallLines();
    ThreeTerminated("K k v", "L l a b", "H h f:x");
  }

  lemma OneEach<V>(line: ((string, V)) -> string, entry: (string, V))
    ensures Each(line, [entry]) == [line(entry)]
  {
    assert [entry][..0] == [];
  }
}
