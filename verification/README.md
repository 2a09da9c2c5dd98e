# A verified model of FluxenDB's data path

FluxenDB is a key-value server with strings, lists and hashes. This Dafny project models the path of a
request through it and proves what that path keeps: request bytes are split into tokens, tokens become a
command, the command edits four maps, the reply goes back as bytes and the client turns it into text.
Beside the path it models the dump file and restarts, and the counters and histograms that watch every
command.

`dafny verify dfyconfig.toml` checks everything.

| file | what it holds |
|---|---|
| `Bytes.dfy` | byte strings, `size_t` arithmetic, CRLF search, whitespace words, decimal text and `stoi` |
| `RequestCodec.dfy` | the client's request encoder and the server's parser |
| `ReplyCodec.dfy` | the client's reply decoder, and what it makes of every reply |
| `Store.dfy`, `Lists.dfy` | the four maps as a value, walk orders, list editing |
| `Database.dfy` | the database object, every method edited in place as in the program |
| `Persistence.dfy`, `Loading.dfy` | the dump file: text, parsing, round trip; what any file loads to |
| `Commands.dfy`, `Dispatch.dfy` | tokens to commands, commands to state and reply, what of a request matters |
| `CommandHandler.dfy` | the dispatcher object over the database and the metrics |
| `Requests.dfy` | the tokens written for each command, and that they mean it |
| `Observations.dfy` | what clients can observe of each command, said through other replies and through slots |
| `Runs.dfy`, `Locality.dfy`, `Accounts.dfy` | laws of runs: invisible entries, commuting keys, lengths, deques, hashes |
| `Metrics.dfy`, `Classification.dfy` | counters and histograms; what counts as a read, a write, a success, a failure |
| `TextFormat.dfy`, `Exposition.dfy` | a reader for sample lines, the histogram text and what reads back from it |
| `Sessions.dfy` | conservation over runs, a value's way over the wire, what limited receives make of both directions |
| `Restart.dfy`, `Server.dfy` | snapshots and restarts as a step system, and the server loop as a run of it |

A `char` stands for one byte; nothing depends on an upper bound of it. An unordered map is walked in an
arbitrary order: methods pick keys one by one, and the theorems hold for every order. C++ exceptions
(`stoi`, `stoll`, `substr`) are outcomes (`BadInteger`, `BadPosition`, `Fault`, `Throws`); nobody catches
them, so they end the process. Conversions to `size_t` wrap at 2^64 and `stoi` has the range of a 32-bit
`int`. Latencies are reals.

Main results, in the order of the table below:

- The dump file round trip holds exactly on the representable databases, which are exactly what `load` can
  produce from any file; every restart in every run recovers the last snapshot exactly when it was
  representable, and the commands that never leave that class are named exactly.
- Any file loads to what its lines say: the last line naming a key decides, and in it the last word setting a field.
- The tokens written for a command mean that command, and no fewer do.
- Any prefix of an encoded request followed by anything parses to exactly the tokens that arrived whole. A send
  longer than one receive becomes several requests, and what each of them is, is stated.
- A connection is in step, one request for each command and one whole reply for each receive, exactly when every
  send and every reply fits one receive. In step, commands over the wire run as commands.
- After SET, GET is answered with the value exactly when the SET fits one receive (4095 bytes, the line ends after
  the value not counted) or the key held that value before and the GET fits. On a connection in step the client is
  then shown the value; out of step it can be shown a piece of an earlier reply.
- The decoder makes the intended text of every complete reply except LINDEX's miss. Of a reply longer than one
  receive the client sees a part; the exact limits are stated for values and simple strings.
- Reads, which insert empty entries, are invisible to every command but five, and those five are exactly
  the ones that can tell.
- Commands and runs on different keys commute.
- LREM's two loops meet one positional specification, and so does the command.
- A key once deleted stays empty until something is put under it.
- Commands classified as reads never change anything that can be seen; each one classified as a write can.
- Counters, histograms, list and hash lengths obey conservation laws over whole runs; the list ledger is exact,
  and balances precisely when no pop takes an empty string.
- The exported histogram, read back in the text format, is exact and cumulative exactly when the command name holds
  no double quote, backslash or line feed, since names are printed without escapes.

Where the code and the repository's documentation differ, the model follows the code:

- README.md:97 and README.md:132 promise expiry; no code compares a deadline with the clock
  (`Runs.DeadlinesNeverMatter`).
- README.md:119 promises field/value pairs for HGETALL; the reply header counts the fields, so the client
  shows only half of the strings (`ReplyCodec.HGetAllShownWholeIff`).
- README.md:94 says KEYS lists all keys; it lists string keys twice and hash keys never.
- README.md:126-127 describe threads and a lock; the loop is single-threaded and the lock is never taken.
- README.md:133 names the file `dump.my_rdb`; the code uses `dump.my_db`.

## Model

| member | source | states |
|---|---|---|
| Persistence.RoundTripIffRepresentable | src/server/Database.cpp:380-482 | for every order in which the three maps and each hash may be walked, loading the dump gives the three stores back if and only if the database is representable: no whitespace anywhere, no empty list item, no colon in a hash field, nothing but emptiness under the empty key |
| Persistence.LoadedIsRepresentable | src/server/Database.cpp:432-480 | whatever file is read (duplicate keys, missing values, pairs without a colon, unknown line types, blank lines with any leftover type), the result is representable |
| Persistence.LoadNormalises | src/server/Database.cpp:380-482 | dumping what any file loaded to, in any order, and loading again changes nothing |
| Persistence.ColonFieldIsSplit | src/server/Database.cpp:408-411 | the failing family at hash fields: a field with a colon comes back cut at its first colon, the rest moved into the value |
| Loading.FileLoaded | src/server/Database.cpp:426-481 | for every file a key is in a store if and only if a line of that type names it, and the last such line decides: a K line gives its second word or nothing and later words do not count, an L line the words after the key |
| Loading.FieldsLoaded | src/server/Database.cpp:465-478 | a field is in a loaded hash if and only if some word of the last H line is the field, a colon and a rest, the field without colons; its value is that rest in the last such word; words without a colon do nothing |
| Loading.LinesJoined | src/server/Database.cpp:432 | the lines read hold no line feed and joined give the file, up to a last line feed |
| Loading.SmallDump | src/server/Database.cpp:390-413 | a dump written out |
| Databases.Database.Dump | src/server/Database.cpp:380-416 | the text written is the dump of some listing of exactly the present entries, each once; nothing when the file does not open |
| Databases.Database.Load | src/server/Database.cpp:418-482 | the object ends in the state the file describes, line by line, later lines replacing earlier ones, expiry untouched; false and no change without a file |
| Databases.Database.ReadLine | src/server/Database.cpp:434-479 | one line, read with a character and words from the stream, has the effect its type and words say; on a blank line the type is whatever the uninitialised variable holds |
| Restarts.RestartRecoversSnapshot | src/server/Server.cpp:140-158 | in every run of requests, dumps, crashes and restarts, a restart restores the three stores of the last snapshot if and only if that snapshot was representable; without a snapshot it loads the file found first |
| Restarts.LosesOnlyTheLatest | src/server/Server.cpp:140-158 | after a dump, whenever the process ends, a restart brings back the state of that dump or of a later moment, if and only if it was representable |
| Restarts.PlainSessionsSurvive | src/server/main.cpp:19-22 | with plain requests the server can be restarted at any moment of any run and comes back with exactly the stores of the last snapshot |
| Restarts.PreservesExactly | src/server/Database.cpp:36-376 | a command leads from every representable database to a representable one if and only if it is plain, a condition on its arguments alone |
| Restarts.SplitTokensArePlainIff | src/client/main.cpp:27-31 | tokens split at whitespace give a plain command if and only if no hash field that HSET or HMSET stores holds a colon |
| Restarts.InlineSessionsSurvive | src/server/CommandHandler.cpp:24-31 | whatever bytes inline requests are made of, without a colon in a stored hash field every restart comes back with the last snapshot |
| Servers.Server.constructor | src/server/main.cpp:19-25 | a new process starts from its dump file, or from empty stores |
| Servers.Server.Receive | src/server/Server.cpp:104-138 | one ready descriptor is one step, one client more or one client less; a crash comes only from a request that throws, and changes nothing |
| Servers.Server.Run | src/server/Server.cpp:96-158 | the loop is a run of the step system; after every round less than the dump interval has passed since the last dump was tried, a round that ends with the interval passed and whose file opens leaves a snapshot of that moment, and so does a shutdown; the client gauge has moved by connections minus departures |
| Servers.ClientsCounted | src/server/Server.cpp:104-138 | the gauge moves by connections less departures |
| RequestCodec.ParseSendCommand | src/client/Client.cpp:37-47 | the encoder loop builds the array form of the tokens |
| RequestCodec.ParseRespCommand | src/server/CommandHandler.cpp:18-68 | the parser loop returns exactly the tokens, or the exception, of the recursive parser, negative lengths and backward moves included |
| RequestCodec.ParseElements | src/server/CommandHandler.cpp:49-67 | the element loop yields what the recursive parser says of the position and count it starts with |
| RequestCodec.SplitWords | src/server/CommandHandler.cpp:27-31 | the inline loop returns exactly the whitespace-delimited words |
| RequestCodec.TruncatedRequest | src/server/CommandHandler.cpp:49-66 | for every token list, every bytes after it and every cut, the parser returns precisely the tokens whose header and payload arrived whole |
| RequestCodec.WholeTokensByPosition | src/server/CommandHandler.cpp:61-65 | a token counts as whole exactly when the position of its payload's end is within the bytes received |
| RequestCodec.RequestRoundTripExactly | src/client/Client.cpp:37-47 | followed by any bytes, an encoded request parses back to its tokens if the count and every length fit in an int, and ends in stoi's exception otherwise |
| RequestCodec.ParserTotal | src/server/CommandHandler.cpp:42-67 | on every input no substring start is out of range, no more tokens come out than announced, and every token is a stretch of the input |
| RequestCodec.PayloadRead | src/server/CommandHandler.cpp:58-65 | in plain numbers: an element whose end lies outside the input stops the parse; a negative length takes the whole rest of the input, and the next element starts two past where the length says, never more than one past this payload |
| RequestCodec.AnnouncedTokens | src/server/CommandHandler.cpp:49-67 | a request announcing n elements and bringing whole bulks, then something that is none or nothing, gives the first n of them, or all when there are fewer |
| RequestCodec.SmallRequest | src/server/CommandHandler.cpp:11-16 | a request written out |
| RequestCodec.FramingsAgree | src/server/CommandHandler.cpp:24-67 | words with any blank separators and the array form parse to the same tokens, unless the line starts with a star |
| Sessions.FramingsServedAlike | src/server/CommandHandler.cpp:72-87 | both framings of a command give the same reply and next state |
| Sessions.OneReceive | src/server/Server.cpp:126-131 | the first receive of a command parses to its whole tokens, and to all of them exactly when the last payload ends within 4095 bytes |
| Sessions.ReceivesAt | src/server/Server.cpp:126-131 | the requests one send becomes: the i-th is the i-th stretch of 4095 bytes, the last one what is left, no byte lost |
| Sessions.OneRequestIff | src/server/Server.cpp:126-131 | the server sees one request, the command as sent, if and only if all bytes sent fit one receive |
| Sessions.LineEndsAreARequest | src/client/Client.cpp:113-117 | when only the final line ends spill over, the command is parsed as sent and the line ends are one more, empty, request |
| Sessions.TailIsARequest | src/server/Server.cpp:126-131 | a SET too long for one receive is refused and stores nothing, and the tail of its value is answered as a request: any inline command can stand there |
| Bytes.WordsOfInterleave | src/server/CommandHandler.cpp:27-31 | splitting recovers words written with any non-empty blank separators |
| Bytes.WordsAreWords | src/server/Database.cpp:441-456 | every word read from a stream is non-empty and holds no whitespace |
| Bytes.SixBlanks | src/server/CommandHandler.cpp:27-31 | space, tab, line feed, vertical tab, form feed and carriage return separate words |
| Decimal.StoiOfDecimal | src/server/CommandHandler.cpp:46-58 | reading back a printed number gives the number if it fits in an int and throws otherwise |
| Requests.StoiReads | src/server/CommandHandler.cpp:228 | stoi reads a number after blanks and a sign, stops at the first other character, and throws out of the range of an int |
| Requests.StoiThrows | src/server/CommandHandler.cpp:228 | it throws when no digit follows the blanks and the sign |
| ReplyCodec.ParseResponse | src/client/Client.cpp:48-111 | the decoder returns the text, or the exception, of its specification, size_t wrap-around included |
| ReplyCodec.ReplyDecodes | src/client/Client.cpp:53-110 | for every complete reply and every walk order parseResponse makes the intended text, and fails exactly on the LINDEX miss |
| ReplyCodec.SimpleRoundTripIff | src/client/Client.cpp:55-57 | a simple string comes through whole if and only if it holds no CRLF |
| ReplyCodec.RepliesLead | src/server/CommandHandler.cpp:94-544 | every reply starts with the sign of its type and, error lines apart, ends in CRLF |
| ReplyCodec.SmallReplies | src/client/Client.cpp:79 | replies written out |
| ReplyCodec.NullItemDecodes | src/client/Client.cpp:96-99 | a null among the items of an array is shown as NULL |
| ReplyCodec.ArrayDecodes | src/client/Client.cpp:78-106 | an array headed n over at least n strings of any bytes shows the first n, each followed by one space |
| ReplyCodec.HGetAllShownWholeIff | src/server/CommandHandler.cpp:511-519 | the client shows all pairs of an HGETALL reply if and only if there are none |
| ReplyCodec.IndexMissFaults | src/server/CommandHandler.cpp:370-373 | the LINDEX miss reply makes the client's stoi throw |
| ReplyCodec.ClientFailsExactly | src/client/Client.cpp:119-126 | of all commands whose reply fits one receive, exactly LINDEX out of range or at an empty element makes the client fail; every other reply is shown as intended |
| ReplyCodec.ValueShownIff | src/client/Client.cpp:119-126 | a value is shown whole if and only if its payload ends within one receive of 4095 bytes; a longer one is shown cut there |
| ReplyCodec.SimpleShownIff | src/client/Client.cpp:119-126 | a simple string without CRLF is shown if and only if its CRLF arrives with it or is cut off entirely |
| ReplyCodec.ArrayShown | src/client/Client.cpp:119-126 | an array is shown as intended when the last payload it announces ends within one receive |
| ReplyCodec.CutArrayIsGarbled | src/client/Client.cpp:92-101 | the failing case: an array cut inside a header takes the item from the start of the reply and shows the item count in its place |
| Sessions.GetReturnsLastSet | src/server/CommandHandler.cpp:118-149 | from any state: SET over the wire, any run that does not write the key, GET over the wire; the server answers the value if and only if the SET fits one receive (or the key held it before and the GET fits) |
| Sessions.GetShownInStep | src/client/Client.cpp:119-126 | on a connection in step, whatever its earlier commands and replies, the client is shown exactly the value of a SET that fits |
| Sessions.WireRunsCommands | src/client/Client.cpp:113-117 | commands sent one after another become one request each if and only if every send fits one receive; then they run as their commands, each at its own clock reading, reply by reply |
| Sessions.OneRequestEach | src/server/Server.cpp:126-131 | any sends become as many requests as there are sends if and only if each fits one receive, and then each request is the whole send |
| Sessions.ConnectionInStep | src/client/Client.cpp:113-126 | one request for each command and one whole reply for each receive, if and only if every send and every reply fits one receive |
| Sessions.FetchedInStep | src/client/Client.cpp:119-126 | each receive takes exactly what arrived for it if and only if every arrival fits one receive |
| Sessions.NothingLost | src/client/Client.cpp:119-126 | what was received and what is unread are together what arrived, in order |
| Sessions.LateReply | src/client/Client.cpp:119-126 | the failing case: after a reply of two receives or more, the next command is shown a later stretch of that reply |
| Sessions.SpilledReplyIsLate | src/server/CommandHandler.cpp:76-77 | the other failing case: the answer to the empty request that spilled line ends make is shown for the next command |
| Accounts.HGetReturnsLastHSet | src/server/Database.cpp:285-314 | HGET answers with the last HSET of the field through any run that does not write the field; an empty value reads as missing |
| Accounts.LIndexReadsLSet | src/server/Database.cpp:152-162 | an element set is the element read, no other changes, and an index out of range changes nothing |
| Dispatch.NamesIgnoreCase | src/server/CommandHandler.cpp:83-84 | requests that differ only in the case of the command name mean the same command |
| Dispatch.ArgumentsKeepCase | src/server/CommandHandler.cpp:94-543 | the first argument of every command that takes one counts exactly as written, case included |
| Dispatch.Capitals | src/server/CommandHandler.cpp:84 | the letters a to z become capitals, everything else stays |
| Dispatch.PairAt | src/server/CommandHandler.cpp:532-535 | the i-th HMSET pair is the i-th field and value after the key |
| Requests.TokensMean | src/server/CommandHandler.cpp:94-543 | the tokens written by hand for every command, numbers with their sign, mean that command |
| Requests.TooFewTokens | src/server/CommandHandler.cpp:99-530 | a command with any token missing that it cannot do without is answered with its usage line |
| Requests.ExtraTokens | src/server/CommandHandler.cpp:99-516 | tokens after the last one a command takes change nothing |
| Requests.NoNumberNoCommand | src/server/CommandHandler.cpp:228-369 | LSET, LREM and LINDEX end in an exception of stoi where the number cannot be read |
| Requests.UnlinkIsDel | src/server/CommandHandler.cpp:174 | UNLINK is DEL under another name |
| Requests.UnknownShown | src/server/CommandHandler.cpp:540-544 | a name that is no command changes nothing, and the user is shown the error with the name in capitals |
| Requests.EmptyRequest | src/server/CommandHandler.cpp:76-77 | a request without tokens changes nothing, counts nothing and is answered with one fixed line |
| Requests.CommandOverWire | src/client/Client.cpp:113-117 | a command sent over the wire is that command |
| Requests.RenameOverWire | src/server/CommandHandler.cpp:204-216 | over the wire, after RENAME a b GET b answers what GET a answered before, if that was a value, and GET a nothing |
| CommandHandlers.CommandHandler.ProcessCommand | src/server/CommandHandler.cpp:72-552 | one request leaves the state, the reply bytes, the counters and the histogram that its command means; an exception leaves all of them alone |
| CommandHandlers.CommandHandler.Execute | src/server/CommandHandler.cpp:94-544 | every branch performs its data operation, renders its reply and makes its increments |
| CommandHandlers.CommandHandler.KeyCommand | src/server/CommandHandler.cpp:132-217 | the GET, KEYS, TYPE, DEL, EXPIRE and RENAME branches |
| CommandHandlers.CommandHandler.ListCommand | src/server/CommandHandler.cpp:219-382 | the list branches |
| CommandHandlers.CommandHandler.HashCommand | src/server/CommandHandler.cpp:385-539 | the hash branches |
| CommandHandlers.CommandHandler.SetPairs | src/server/CommandHandler.cpp:532-535 | the HMSET loop leaves the left fold of its pairs |
| CommandHandlers.PairsReply | src/server/CommandHandler.cpp:511-519 | the HGETALL loop writes a header counting the fields and two strings for each, in one walk order |
| Observations.DelEmptiesSlot | src/server/Database.cpp:88-96 | DEL empties all three stores of its key, keeps the deadline, and answers 1 if and only if one of them held something |
| Observations.DeletedStaysEmpty | src/server/Database.cpp:88-96 | after DEL or FLUSHALL and any run that puts nothing under the key, GET answers nothing, LGET no items, HGETALL no fields, LLEN and HLEN 0 |
| Observations.SetFillsSlot | src/server/Database.cpp:36-40 | SET fills the string of its key and leaves list, hash and deadline |
| Observations.GetReadsSlot | src/server/Database.cpp:41-51 | GET answers the string of its key, or nothing, and changes nothing |
| Observations.PingAndEcho | src/server/CommandHandler.cpp:94-111 | PING answers PONG and ECHO its message |
| Observations.FlushEmptiesSlots | src/server/Database.cpp:28-35 | FLUSHALL empties every key but for its deadline |
| Observations.ExpireSetsDeadline | src/server/Database.cpp:98-108 | EXPIRE sets the deadline that many seconds ahead on a key that holds something, and changes nothing otherwise |
| Observations.ExpireThrows | src/server/Database.cpp:98-108 | seconds that are no number end EXPIRE in an exception only for a key that holds something |
| Observations.TypeNamesSlot | src/server/Database.cpp:70-87 | TYPE names string, list, hash or none, in that order |
| Observations.KeysListsTwice | src/server/Database.cpp:52-69 | KEYS lists each string key twice, each list key once more and no hash key |
| Observations.EntryLeftBehind | src/server/Database.cpp:152-376 | which commands leave an entry behind for a key without one: all but LREM, HGET, HEXISTS and HDEL |
| Observations.ListReadsAgree | src/server/Database.cpp:164-174 | LGET, LLEN and LINDEX tell the same story |
| Observations.PushesSeen | src/server/Database.cpp:176-197 | what LGET answers after RPUSH and LPUSH, position by position, and the lengths they answer |
| Observations.PopsSeen | src/server/Database.cpp:199-224 | what the pops answer and what LGET answers after them |
| Observations.LSetSeen | src/server/Database.cpp:152-162 | what LGET answers after LSET, and when LSET succeeds |
| Observations.HashReadsAgree | src/server/Database.cpp:299-376 | HGETALL, HKEYS, HVALS, HLEN, HEXISTS and HGET tell the same story, and none changes it |
| Observations.HashWritesSeen | src/server/Database.cpp:285-337 | what HGETALL answers after HSET, HDEL and HMSET, and what those answer |
| Runs.DeadlinesNeverMatter | src/server/Database.cpp:98-108 | over whole runs, replies and stores are the same whatever the expiry map holds |
| Equivalence.RespectsExactly | src/server/Database.cpp:152-376 | a command cannot tell an empty entry from a missing one if and only if it is not TYPE, KEYS, DEL, EXPIRE or a RENAME between two keys |
| Equivalence.ReadsDoNotMatter | src/server/Database.cpp:152-376 | deleting any reads from a run of data commands, or inserting them, changes no other reply and nothing visible at the end |
| Locality.WritesOnlyItsKey | src/server/Database.cpp:36-107 | a single-key command leaves every other key's slot in all four maps alone |
| Locality.ReadsOnlyItsKey | src/server/Database.cpp:152-376 | its reply, increments and new slot depend on nothing but its own slot |
| Locality.CommandsCommute | src/server/Database.cpp:36-376 | two commands on different keys commute in final state and both replies |
| Locality.RunsCommute | src/server/Database.cpp:36-376 | whole runs over disjoint key sets commute, each giving the replies it would have given alone |
| Databases.Database.Rename | src/server/Database.cpp:110-148 | the four maps after the move, and whether anything was found, deadlines included |
| Locality.RenameMoves | src/server/Database.cpp:110-148 | the old key ends up empty, the new one takes over what the old one held map by map and keeps the rest, third keys are untouched; equal keys lose the entries |
| Locality.RenameComposes | src/server/Database.cpp:110-148 | renaming twice in a chain is renaming once when the middle key held nothing |
| Locality.RenameUndone | src/server/Database.cpp:110-148 | renaming there and back is the identity if and only if the target held nothing |
| Databases.Database.LRem | src/server/Database.cpp:226-271 | the in-place loops leave what the removal functions say, return how many went, and leave a missing list missing |
| Databases.Database.RemoveForward | src/server/Database.cpp:241-256 | the forward erase loop |
| Databases.Database.RemoveBackward | src/server/Database.cpp:257-269 | the backward erase loop |
| Lists.RemoveIsPositional | src/server/Database.cpp:235-270 | exactly the positions holding the value with fewer than the count of matches before them (after them, for a negative count) disappear, the others keep their order, and their number is the smaller of the count and the matches |
| Lists.RemoveDuality | src/server/Database.cpp:257-269 | removing from the back is reversing, removing from the front and reversing again |
| Lists.RemoveAdds | src/server/Database.cpp:226-271 | two removals in the same direction add up |
| Observations.LRemIsPositional | src/server/CommandHandler.cpp:346-359 | the command LREM deletes exactly the positions the specification names, for every count, and answers the smaller of the count and the matches |
| Observations.LRemDuality | src/server/Database.cpp:257-269 | LREM with a negative count is LREM on the reversed list, reversed |
| Observations.LRemAdds | src/server/Database.cpp:226-271 | two LREMs in one direction leave the state of one, and their replies add up |
| Databases.Database.LPush | src/server/Database.cpp:176-186 | the insert loop leaves the values reversed in front of the old list |
| Databases.Database.RPush | src/server/Database.cpp:188-197 | the insert loop leaves the values after the old list |
| Databases.Database.LPop | src/server/Database.cpp:199-211 | takes the first element, or answers the empty string and leaves an empty list |
| Databases.Database.LSet | src/server/Database.cpp:152-162 | replaces the element in range, otherwise only creates the list |
| Accounts.DequeLaws | src/server/Database.cpp:170-224 | values pushed by LPUSH come back in order by RPOP and reversed by LPOP, and the other way round for RPUSH |
| Accounts.PushesAreOnePush | src/server/Database.cpp:176-197 | pushes of single values answer the growing sizes and leave the list that one push of them all leaves |
| Accounts.DequeLawsOneByOne | src/server/Database.cpp:170-224 | the same laws for a run of single pushes and as many pops |
| Accounts.StepAccounts | src/server/CommandHandler.cpp:301-345 | a list command's reply accounts for the change of length, short by one exactly when it pops an empty string |
| Accounts.ListLedger | src/server/Database.cpp:170-271 | over any mixed run that does not delete, rename or flush the key, the length is what it was plus pushed, minus answered pops, minus LREM replies, minus the empty strings popped |
| Accounts.LedgerBalancesIff | src/server/CommandHandler.cpp:301-345 | the replies alone account for the length of a run if and only if no pop of the run takes an empty string |
| Accounts.PlainListLedger | src/server/Database.cpp:170-271 | so they do over any run that starts without empty strings in the list and stores none |
| Accounts.HashLedger | src/server/Database.cpp:285-343 | over any mixed run without HMSET on the key, the number of fields is what it was plus HSET replies minus HDEL replies |
| Accounts.LastPairWins | src/server/CommandHandler.cpp:532-535 | after HMSET a field has the value of the last pair naming it |
| Accounts.OtherFieldsKept | src/server/CommandHandler.cpp:532-535 | HMSET leaves the fields it does not name |
| Accounts.HMSetIsHSets | src/server/CommandHandler.cpp:532-535 | HMSET leaves what the HSETs of its pairs leave |
| Accounts.WalksAgree | src/server/Database.cpp:345-376 | in one walk order the i-th field, the i-th value and the i-th pair of HKEYS, HVALS and HGETALL belong together |
| Databases.Database.HKeys | src/server/Database.cpp:345-354 | lists every field once, in some order |
| Databases.Database.HVals | src/server/Database.cpp:356-365 | lists the values along a walk of the fields |
| Databases.Database.HGetAll | src/server/Database.cpp:367-376 | copies the hash exactly |
| Store.WalkKeys | src/server/Database.cpp:349-352 | a range-based for visits every key exactly once |
| MetricsModel.ObserveLatency | src/utils/Metrics.cpp:63-73 | keeps the histogram exact: count, sum, and each bucket the number of durations at most its limit |
| MetricsModel.AtMostCounts | src/utils/Metrics.cpp:67-72 | the specification of a bucket without recursion: how many positions hold a duration at most the limit |
| MetricsModel.HistogramContract | src/utils/Metrics.cpp:10-25 | for any observations buckets are cumulative and bounded by the count; with no negative duration the sum is at least that of every observation at the lower end of its bucket, and with none above the last limit at most that at the upper ends |
| MetricsModel.EstimatesByBucket | src/utils/Metrics.cpp:10-25 | summation by parts: widths times the counts above a bucket add up to bucket increments times their limits |
| Exposition.AppendHistogram | src/utils/Metrics.cpp:75-93 | the loop appends the seventeen lines of the histogram of the durations observed, the sum to nine decimals |
| Exposition.ScrapeReadsBackIff | src/utils/Metrics.cpp:75-93 | split into lines and read in the text format, the export says the histogram, every line with its command, limit and number, if and only if the command name has no double quote, backslash or line feed |
| Exposition.BucketReadsBackIff | src/utils/Metrics.cpp:79-86 | the same for one bucket line |
| Exposition.QuoteIsUnreadable | src/utils/Metrics.cpp:80-82 | the failing quote: a name with a double quote makes a line that is not in the format |
| Exposition.SumWithinHalfNano | src/utils/Metrics.cpp:88-90 | the printed sum denotes a number within half a nanosecond of the sum |
| Exposition.ScrapeIsCumulative | src/utils/Metrics.cpp:75-93 | the counters read back: bucket i is the number of durations at most limit i, buckets are cumulative and bounded by the +Inf line, which equals the count line |
| Exposition.ScrapedLines | src/utils/Metrics.cpp:79-92 | the text splits into its seventeen lines if and only if the command name, printed in upper case and without escapes, has no line feed; each line feed adds seventeen |
| Exposition.LabelsAreLimits | src/utils/Metrics.cpp:10-43 | the label printed for every bucket denotes the limit it counts by |
| MetricsModel.Metrics.RecordCommandLatency | src/utils/Metrics.cpp:132-139 | adds the duration to the command's histogram and to no other; an empty name is not timed |
| MetricsModel.Metrics.IncrementSuccessfulCommand | src/utils/Metrics.cpp:102-105 | one success, and one read or write by the command's kind |
| MetricsModel.Metrics.IncrementFailureCommand | src/utils/Metrics.cpp:107-110 | one failure, and one read or write by the command's kind |
| Sessions.KnownIsClassified | src/utils/Metrics.cpp:46-62 | a name is dispatched if and only if it is classified as a read or a write |
| Sessions.CountersConserved | src/server/CommandHandler.cpp:72-551 | over any completed run successes plus failures grow by the requests with a token, less FLUSHALLs, plus LINDEX misses; reads plus writes by that less the unknown commands |
| Classification.ReadsAndWritesCounted | src/utils/Metrics.cpp:46-62 | over any completed run the read counter grows by the increments of the fourteen read commands, the write counter by those of the fifteen write commands, both lists written out |
| Classification.SuccessesAndFailures | src/utils/Metrics.cpp:102-110 | the success counter grows by the requests answered without an error, FLUSHALL excepted, the failure counter by those answered with one; a LINDEX that finds nothing counts in both |
| Classification.ReadNamesRead | src/utils/Metrics.cpp:47-52 | a request with a read name changes nothing that can be seen |
| Classification.WriteNamesWrite | src/utils/Metrics.cpp:53-58 | for every write name some request changes something that can be seen |
| Sessions.HistogramsHoldDurations | src/server/CommandHandler.cpp:546-549 | every histogram holds exactly the durations of the requests with its command name, in order |
| Sessions.ObservationsConserved | src/utils/Metrics.cpp:132-139 | histogram counts summed over commands grow by the requests with a token, less those whose command name is empty |

## Left out

- CommandHandlers.CommandHandler.ProcessCommand: its precondition excludes LSET and LREM with exactly three tokens and HMSET with an unpaired field, where the code reads past the tokens, and LREM with the smallest int, whose negation overflows: all four are undefined behaviour. The increments of a branch are applied together after its data operation; nothing in the single-threaded loop looks in between.
- Commands.UsageText: the wording of the usage lines is data of the program; no law speaks of it.
- Servers.Server.Receive: the same requests are excluded.
- Servers.Server.Run: the same requests are excluded; sockets, epoll, signals and send failures are reduced to the events they deliver, and the signal that stops the loop is the end of the rounds.
- Databases.Database.Dump: a crash in the middle of writing is not modelled.
- Databases.Database.Load: reading the uninitialised type on a blank line is modelled as an arbitrary character.
- RequestCodec.ParseRespCommand: `len + 2` is the mathematical sum, so lengths within two of the largest int, whose sum overflows in C++, are treated as if it did not.
- Databases.Database.LPush: the size is returned unbounded, where the code narrows it to int.
- Databases.Database.RPush: the size is returned unbounded, where the code narrows it to int.
- Databases.Database.LRem: the number removed is returned unbounded, where the code counts in an int.
- MetricsModel.Metrics.IncrementSuccessfulCommand: counters are unbounded, where the code uses atomic ints and size_t; sums of durations are real, without floating-point rounding.
- Exposition.AppendHistogram: the sum is printed from a real number, where the code prints a double; the rest of the exposition text is plumbing.
- TextFormat.ReadSample: reads the lines of this export only; optional blanks, time stamps and comments of the format are not modelled.
- Sessions.WireRunsCommands: each send has arrived whole, and been received, before the next one starts, as with a client that waits for its answers.
- ReplyCodec.ArrayShown: one direction only; an array cut inside a header shows bytes from the start of the reply, which can happen to be the item itself, so no length condition is exact.
- Sessions.ReceivesAt: all bytes of a send have arrived before the first receive; fewer bytes at a time are covered by RequestCodec.TruncatedRequest, not by this split.
- Databases.Database.Expire: the clock is an integer of nanoseconds and the deadline does not overflow.
- Databases.Database.Keys: no claim that it enumerates the database, since it does not.
- Restarts.RestartRecoversSnapshot: a dump is one atomic step, and after the start the file is only written by the server.
- The command-line client's loop and connection code, the CPU and memory gauges, the metrics HTTP server, and the container and dashboard files are plumbing.
- Hash-table internals (rehashing, iterator validity across the insertion in rename) are abstract maps.
