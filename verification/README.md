# TrumanBox: a verified model of its stateful core

TrumanBox sits between an infected client and the Internet, relays or emulates the servers that the client
talks to, and logs what it sees. This project models the parts of it that keep state, proves what each step
keeps, and proves what whole runs guarantee. One Dafny module stands for one component:

| module | component |
|---|---|
| `CText` | the C string functions the others use: `strcspn`, `strstr`, `atoi`, `%d`, blanks, `memcpy` |
| `IniDictionary` | the open hash table of the configuration: three parallel arrays with holes |
| `IniFile` | the configuration parser and printer on top of it |
| `ProcessList` | the doubly linked list of forked children, on real heap nodes |
| `HttpFields` | extraction of header fields and the in-place replacement of the `Server:` value |
| `HttpCollector` | the two collectors that reassemble HTTP bodies |
| `LogLock` | log files appended to by many processes under one semaphore |
| `Relay` | one relayed connection: modes, identification, connecting, the event loop |
| `FtpPassive` | passive-mode replies and the table of awaited data connections |
| `DnsResolver` | decoding of the queried name and assembly of the reply |
| `PathTree` | request paths and the directory trees made for them |

The imperative parts of the source are classes and methods that update arrays, nodes and fields in place. Each
is proved equal to a function of its old state (or to an abstract value such as a finite map or a sequence); the
properties that span several operations or a whole history are lemmas about those functions. Strings are
sequences of characters without NUL, except that HTTP payloads may hold any bytes: what the source looks for
with `strstr` is then looked for in the C string at their start. What the environment decides (the sizes of
partial writes, whether a connection attempt succeeds, what a payload looks like, which process runs next) is a
parameter or a nondeterministic choice, so every claim holds for all of its choices.

`dafny verify dfyconfig.toml` checks the whole project.

## Where the source misses its own intent

In these places the code plainly does something else than it is meant to. The operation is modelled as meant
unless noted; beside it stands a model of the code as written, or of its exact effect, with the exact condition
under which the two agree.

* `src/iniparser.c:277` asks whether the whole key array is NULL, where lines 328 and 388 ask about one slot. As
  written, a look-up compares with a NULL key exactly when the hash sought is 0, the hash of a hole, and a hole
  comes before any match (`GetAsWritten`). The empty key is such a key (`EmptyKeyHash`).
* `src/process_manager.c:95-99` drops the whole tail when the head is deleted, then uses and frees the head again
  (`DelAsWrittenIsExact`).
* `src/process_manager.c:137-147` reads the link of an element it has just freed; the sweep is right exactly when
  there is nothing to sweep (`KillAsWrittenIsExact`). Even with that repaired it deletes by process id, so it keeps
  the permanent children exactly when no temporary one shares its id with an earlier permanent one
  (`SweepIsExact`).
* `src/protocols/http.c:28` and `:38` copy back one byte more than was saved. That byte is part of the model
  (`Manipulated`), not repaired: the result is the meant one exactly when the byte is NUL or cut off by a NUL of the
  payload (`ManipulatedIsSpliced`). It can turn the length 1 into 12 (`StrayDigit`); when the header is complete it
  ends up in the body instead (`StrayMissesHeader`).
* `src/protocols/http.c:12` looks for `Server: ` where `:168` extracts `Server:`, so an earlier `Server:` without a
  blank hides the new value (`HiddenServer`); `ServerReadsBack` has the exact condition.
* `src/protocols/http.c:151` leaves the counter of a new record unset, so a message without a body has no count.
* `src/protocols/http.c:205-252`: a segment that overshoots the announced length is dropped whole, with the body
  bytes it holds (`LosslessIff`). The server's counter wraps after 2^32, and a count of exactly 2^32-1 ends a
  body of unknown length; both are part of the `Continue...` contracts.
* `src/protocols/ftp.c:71-119` steps over the end of a malformed reply line, namely of a 227 line without a
  parenthesis and five commas behind it (`PasvIff`, `FiveParts`) and of a 229 line without a parenthesis and a bar
  behind the next three characters (`EpsvIff`). A history can be followed exactly when it has no such line
  (`RunsIff`).
* `src/protocols/proto_ident_truman.c:159` looks a data connection up by its original destination while
  `src/log_postgres.c:308` deletes by the actual one (`LoggingClears`).
* `src/log_truman.c:333` and `:337` return with the semaphore taken; no process can log after that
  (`LeftLockedIsFinal`).
* `src/tcp_handler.c:251-262` takes the result -1 of a failing read for a length; in the model such a read ends the
  run.
* `src/tcp_handler.c:154` returns before any connection is made, so the honeypot redirection alone never connects
  (`HoneypotNeverConnects`).
* `src/dns_resolver.c:138-146` tests for the end of the name only after copying a label, so for the root name it
  copies an empty label and goes on unless the byte behind the name is zero too (`NameDecodes`). The type of every
  common question starts with that zero.
* `src/dns_resolver.c:162` repeats the question count as answer count, so the reply is readable exactly when the
  query counted one question (`ReplyReads`).
* `src/iniparser.c:588-598` prints a dictionary without sections so that it does not load as it was: every key gets a
  colon in front (`BareDumpParses`).
* `src/iniparser.c:908` reads at most 1023 characters at a time, so the rest of a longer line, a comment's included, is
  taken for a line of its own (`LineIsFold`, `LongCommentBinds`); `LineSkippedIff` has the exact condition.
* `src/iniparser.c:926`: the empty-quotes case is never reached by a printed line, because the newline is still in
  the value (`EmptyQuotes`).
* `src/helper_file.c:265-268` leaves the working directory changed when a directory cannot be made or given away:
  it is restored exactly when the walk meets no such directory, or meets it in the directory to be restored
  (`RestoredIff`, `LeftInBase`).
* `src/helper_file.c:95-122` follows `..` like any name, so it makes directories below its start only, exactly when
  no `..` leads it to a missing directory outside (`ContainedIff`, `MadeBeside`).
* `src/protocols/http.c:237` and `:380` take a count of exactly 2^32-1 for the end of a body without a length: an
  open body ends early exactly when some payload brings the 32-bit counter there (`CountedIs`).

## Model

| member | source | states |
|---|---|---|
| `CText.AtoiOfDecimal` | src/protocols/ftp.c:102-103 | `atoi` undoes `%d` for every non-negative int, whatever non-digit text follows |
| `CText.AtoiReads` | src/protocols/http.c:182 | `atoi` of blanks, a sign and a number of any size, whatever non-digit text follows: exact for an int, otherwise the low 32 bits, of the end of long's range if the number lies beyond |
| `IniDictionary.ComputeHash` | src/iniparser.c:177-193 | the byte loop computes the 32-bit wrap-around hash, with signed characters extended |
| `IniDictionary.EmptyKeyHash` | src/iniparser.c:177-193 | the empty key hashes to 0, the value that marks a hole |
| `IniDictionary.HashVectors` | src/iniparser.c:177-193 | three hashes in full: of one character, of one from 128 up, and of two |
| `IniDictionary.MemDouble` | src/iniparser.c:149-157 | the new block is the old one followed by as many zero entries |
| `IniDictionary.OccupiedIsSize` | src/iniparser.c:365-366 | the entry counter, which counts occupied slots, is the number of different keys bound |
| `IniDictionary.SectionsEnumerate` | src/iniparser.c:493-546 | in any table the section list has every key without a colon once and nothing else |
| `IniDictionary.SectionsInOrder` | src/iniparser.c:526-546 | the section list is in slot order |
| `IniDictionary.ReplayIsLatest` | src/iniparser.c:316-412 | after a history a key is bound exactly when the latest operation on it was a set, and then to that value |
| `IniDictionary.PeakStep` | src/iniparser.c:343-366 | along a history only setting a key can raise the largest number of entries held |
| `IniDictionary.Dictionary.constructor` | src/iniparser.c:208-222 | an empty map in a valid table of at least 128 slots |
| `IniDictionary.Dictionary.Find` | src/iniparser.c:381-401 | despite holes and hash collisions the search finds the slot of exactly the key sought, if and only if it is bound |
| `IniDictionary.Dictionary.Get` | src/iniparser.c:270-288 | the bound value, a NULL value included, and the default exactly when the key is unbound |
| `IniDictionary.Dictionary.GetAsWritten` | src/iniparser.c:270-288 | the code's own hole test compares with NULL if and only if the hash is 0 and a hole comes before any match; otherwise it agrees with the map |
| `IniDictionary.Dictionary.Set` | src/iniparser.c:316-368 | the map gains exactly this binding; keys stay distinct, hashes match, the counter is right, growth included; a new key goes into the first hole, in a full table the first one behind it, and no other slot changes |
| `IniDictionary.Dictionary.Grow` | src/iniparser.c:343-352 | doubling keeps the map and every slot |
| `IniDictionary.Dictionary.FirstHole` | src/iniparser.c:354-360 | a table that is not full has a free slot and the scan stops at the first |
| `IniDictionary.Dictionary.Unset` | src/iniparser.c:381-412 | the map loses exactly this key, whose slot becomes a hole, without moving any other or changing the capacity; an unknown key changes nothing |
| `IniDictionary.Dictionary.CountSections` | src/iniparser.c:493-508 | the number of section keys |
| `IniDictionary.Dictionary.SectionName` | src/iniparser.c:526-546 | the n-th section key in slot order, NULL for a negative or too large n |
| `IniDictionary.Run` | src/iniparser.c:208-412 | for every history of set and unset the table equals the history's map, its capacity is 128 doubled some number of times, and it is 128 or less than twice the peak number of entries |
| `IniFile.ComputeStrlwc` | src/iniparser.c:61-75 | lower-cases the first 1024 characters and drops the rest |
| `IniFile.Strskp` | src/iniparser.c:89-95 | stops at the first non-blank |
| `IniFile.Strcrop` | src/iniparser.c:114-130 | removes exactly the trailing blanks |
| `IniFile.HandleEntry` | src/iniparser.c:918-931 | an entry line binds `section:key`, and a line matching none of the three patterns binds nothing |
| `IniFile.HandleSection` | src/iniparser.c:914-917 | a section line becomes the current section in lower case and is bound to no value |
| `IniFile.HandleLine` | src/iniparser.c:906-934 | one line changes section name and map as the line's meaning says: comment, section, entry or nothing |
| `IniFile.Parse` | src/iniparser.c:886-937 | the loaded map is the fold of the line meanings over the text as fgets cuts it |
| `IniFile.SkipIff` | src/iniparser.c:910-931 | which lines bind nothing, by their characters: blank lines, comments, and lines that are no section and lack a name, an equals sign or a value |
| `IniFile.LineIsFold` | src/iniparser.c:908-910 | a line of any length is read in pieces of 1023 characters, each as a line of its own |
| `IniFile.LineSkippedIff` | src/iniparser.c:908-912 | a line makes no difference wherever it stands if and only if each of its pieces binds nothing |
| `IniFile.CommentSkipped` | src/iniparser.c:910-912 | a comment or blank line that fits one piece changes neither section nor map, wherever it stands |
| `IniFile.LongCommentBinds` | src/iniparser.c:908-912 | a longer comment whose end, behind the cut, binds a key |
| `IniFile.SectionReads` | src/iniparser.c:914-917 | what stands between the brackets, or up to the end of the line, is the section, in small letters |
| `IniFile.KeyReads` | src/iniparser.c:918-921 | the key of a line is its name in small letters, without the blanks around it |
| `IniFile.PlainValueReads` | src/iniparser.c:920-931 | a value without quotes ends before a comment or at the end of the line and loses the blanks around it |
| `IniFile.QuotedValueReads` | src/iniparser.c:918-931 | a quoted value is what stands between the quotes, or up to the end of the line, comment characters and leading blanks included, without trailing blanks; two quotes inside other quotes give the empty value |
| `IniFile.DumpSection` | src/iniparser.c:602-615 | writes the section's header and its entries in slot order |
| `IniFile.DumpIni` | src/iniparser.c:580-618 | writes the dump lines of the table, sections or bare keys |
| `IniFile.EntryAligned` | src/iniparser.c:608-613 | how an entry is printed: the name filled up with blanks to 30 characters, the equals sign, the value |
| `IniFile.EntriesInOrder` | src/iniparser.c:605-615 | the entries of a section stand in slot order |
| `IniFile.EntryReadsBack` | src/iniparser.c:608-613 | a printed entry parses back to the same entry if and only if its value is non-empty, trimmed, free of `;` and `#` and not the start of a quoted text |
| `IniFile.EmptyQuotes` | src/iniparser.c:922-930 | a line `name = ""` gives the empty value if and only if nothing or a comment follows the quotes directly |
| `IniFile.SectionReadsBack` | src/iniparser.c:603 | a printed section line parses back to that section |
| `IniFile.ParseIsFold` | src/iniparser.c:901-934 | reading a text made of whole lines is folding over those lines |
| `IniFile.EntriesFold` | src/iniparser.c:605-615 | reading one section's printed entries binds every slot of that section to its own value and nothing foreign |
| `IniFile.SectionsFold` | src/iniparser.c:600-616 | reading all printed sections binds every section and every slot of each, and nothing foreign |
| `IniFile.DumpParses` | src/iniparser.c:580-937 | round trip: the text of the dump of any dumpable table parses to the same map |
| `IniFile.SaveAndLoad` | src/iniparser.c:580-937 | round trip end to end through the two programs: printing, then parsing, gives a valid table with the same map |
| `IniFile.BareDumpParses` | src/iniparser.c:588-598 | a dump without sections, loaded again, has every key with a colon in front and NULL turned into a text, and nothing else |
| `IniFile.EachEntryOnce` | src/iniparser.c:600-615 | the section part of a dump is, as a multiset of lines, two lines for each section and the own line of each entry that belongs to one of them: none missing, none twice, nothing else |
| `IniFile.DumpPrintsOnce` | src/iniparser.c:580-618 | the whole dump of a valid table with sections: each section of the map once, the line of each keyed entry of an existing section exactly once, and a final empty line |
| `IniFile.GetValue` | src/iniparser.c:640-653 | the value bound to `section:key`, cut to 1023 characters and lower-cased, or NULL |
| `ProcessList.ProcessManager.Add` | src/process_manager.c:54-77 | appends; the next links spell the list, the prev links its reverse, no element occurs twice |
| `ProcessList.ProcessManager.Walk` | src/process_manager.c:87-88 | the walk stops at the first element with the pid, or at the last |
| `ProcessList.ProcessManager.Unlink` | src/process_manager.c:95-105 | head, middle and tail alike: exactly this element leaves the chain, which stays well formed (meant behaviour) |
| `ProcessList.ProcessManager.Del` | src/process_manager.c:79-107 | removes the first entry of that pid and no other; ends the process if and only if there is none |
| `ProcessList.ProcessManager.Visit` | src/process_manager.c:139-145 | a step of the sweep: the unvisited elements stay in place although an element may be removed |
| `ProcessList.ProcessManager.KillTemporary` | src/process_manager.c:137-147 | terminates; signals every temporary pid once, in list order; the list is what deleting those pids leaves (meant behaviour) |
| `ProcessList.RemoveFirstProjects` | src/process_manager.c:87-105 | deleting a pid takes the first of that pid's entries and leaves the entries of every other pid alone |
| `ProcessList.SweepIsExact` | src/process_manager.c:137-147 | the sweep leaves exactly the permanent entries in order if and only if no temporary entry follows a permanent one of the same pid |
| `ProcessList.Perform` | src/process_manager.c:54-107 | one step of a history keeps the links well formed and the list equal to the sequence |
| `ProcessList.Run` | src/process_manager.c:54-107 | for every history the list is well formed and equals the replayed sequence, until a deletion of an unknown pid ends the process |
| `ProcessList.DelAsWrittenIsExact` | src/process_manager.c:95-105 | the deletion as written is right if and only if the match is not the head |
| `ProcessList.KillAsWrittenSweeps` | src/process_manager.c:137-147 | if the sweep as written survives at all, it leaves what the meant one leaves |
| `ProcessList.KillAsWrittenIsExact` | src/process_manager.c:137-147 | the sweep as written leaves exactly the permanent entries if and only if there is no temporary one |
| `HttpFields.Strlen` | src/protocols/http.c:37-41 | finds the first NUL |
| `HttpFields.ClearFrom` | src/protocols/http.c:37 | clears up to the next NUL and touches nothing else |
| `HttpFields.Rewrite` | src/protocols/http.c:20-42 | prefix, new value, untouched suffix, in the buffer itself, with the length up to the first NUL |
| `HttpFields.Manipulate` | src/protocols/http.c:10-48 | in place, for any bytes: a payload with a `Server: ` in its C string gets the new value there, is cut at its first NUL and otherwise gains the byte copied too many; one without is unchanged |
| `HttpFields.ManipulatedIsSpliced` | src/protocols/http.c:22-42 | the source's result is prefix, new value and suffix if and only if the byte copied too many is NUL or cut off; the length is that of the parts, plus one otherwise |
| `HttpFields.ReplacedIsManipulated` | src/protocols/http.c:10-48 | the result of the rewriting, spelt out: the text up to its first `Server: `, the new value, the rest from the end of that line, and the byte copied too many |
| `HttpFields.ServerReadsBack` | src/protocols/http.c:426-448 | exactly when extracting `Server:` from the source's result gives the new value: by which `Server:` comes first, line breaks in the value, what follows it, and the byte copied too many |
| `HttpFields.HiddenServer` | src/protocols/http.c:12-14 | an earlier `Server:` without a blank: no new value whatever reads back |
| `HttpFields.FirstOfParts` | src/protocols/http.c:431 | no occurrence of a name straddles the joints of prefix, value and suffix |
| `HttpFields.FieldOfParts` | src/protocols/http.c:426-448 | which part of a spliced header a field is extracted from |
| `HttpFields.FieldKept` | src/protocols/http.c:426-448 | exactly when replacing a middle part leaves an extracted field unchanged |
| `HttpFields.SplicedLengthKept` | src/protocols/http.c:426-448 | the meant replacement leaves `Content-Length:` alone, unless that field runs into the replaced value on the same line, and then exactly when the line stays the same |
| `HttpFields.StrayKeepsField` | src/protocols/http.c:38 | exactly when a byte behind a text changes an extracted field: it continues the field's line or completes the field's name |
| `HttpFields.ContentLengthKept` | src/protocols/http.c:10-48 | exactly when the source's own result keeps the extracted `Content-Length:`, the byte copied too many included |
| `HttpFields.StrayDigit` | src/protocols/http.c:38 | a payload whose length 1 the meant replacement keeps and the source's turns into 12 |
| `HttpFields.UnsetByteIsHarmless` | src/protocols/http.c:161-163 | the header copy ends one byte late; no extracted field depends on that byte |
| `HttpCollector.Collector.BeginServer` | src/protocols/http.c:138-224 | the first server payload of a message does what the abstract machine does |
| `HttpCollector.Collector.BeginClient` | src/protocols/http.c:270-366 | the same for the client, which opens a body of unknown length only on a non-empty first part, and faults exactly without a header end |
| `HttpCollector.Collector.ContinueServer` | src/protocols/http.c:225-258 | refines the abstract machine up to 2^32-1 bytes, with the counter at the announced length when the body completes; beyond, all bytes are kept but the counter wraps and the sentinel count closes the body |
| `HttpCollector.Collector.ContinueClient` | src/protocols/http.c:367-398 | the same, with the counter stuck instead of wrapped |
| `HttpCollector.Collector.EditServer` | src/protocols/http.c:138-143 | the buffer of a payload between messages from an offline destination gets the recorded type as the value of its first `Server: `; in every other case it is not touched |
| `HttpCollector.Collector.HandleServer` | src/protocols/http.c:134-262 | steps the abstract machine for any bytes; what is left in the buffer for the client is the payload with the recorded type in place of the value of its first `Server: `, or the payload as it was |
| `HttpCollector.OfflinePayload` | src/protocols/http.c:138-143 | the same for the payload that the relay passes on |
| `HttpCollector.Collector.HandleClient` | src/protocols/http.c:265-405 | steps the same abstract machine, in the other direction |
| `HttpCollector.ReceiveServer` | src/protocols/http.c:225-258 | any number of later payloads through the 32-bit counter: the abstract feed below 2^32-1 bytes; for an open body of any size all bytes up to the payload that hits the sentinel, and still open exactly when none does |
| `HttpCollector.ReceiveClient` | src/protocols/http.c:367-398 | the same for the client collector, whose counter sticks instead of wrapping |
| `HttpCollector.CountedIs` | src/protocols/http.c:228-248 | for a body without a length every payload up to the first that brings the 32-bit counter to 2^32-1 is kept in order, and the collector stays open if and only if there is none |
| `HttpCollector.FeedWithinLength` | src/protocols/http.c:228-242 | up to the announced length every byte is kept in order; exactly at that length the collector is idle, with the counter there |
| `HttpCollector.LosslessIff` | src/protocols/http.c:228-256 | all offered bytes reach the file if and only if they do not exceed the announced length |
| `HttpCollector.FeedToTheEnd` | src/protocols/http.c:243-248 | without an announced length every byte is kept in order |
| `HttpCollector.MessageCollected` | src/protocols/http.c:134-405 | segmentation independence: however a body is cut, the file gains exactly the body, the counter ends at its length and the collector is idle, in both directions; a message without a body leaves it idle and every file as it was |
| `HttpCollector.OpenBodyCollected` | src/protocols/http.c:205-394 | a message without a length, from its first payload on: every byte behind the header is kept in order and counted, in both directions, on the client side once the first payload holds some of the body |
| `HttpCollector.SessionCollected` | src/protocols/http.c:134-405 | every message of a connection starts afresh: all bodies of a session, with messages without a body in between, reach their files, and the last message's count stands |
| `HttpCollector.BodiesInFiles` | src/protocols/http.c:134-405 | with a new file for each message every message with a body has a file equal to it, and one without has none |
| `HttpCollector.SessionInRange` | src/protocols/http.c:205-252 | no session of messages that announce their lengths or have no body ever reaches the limits of the 32-bit counter |
| `HttpCollector.CollectServer` | src/protocols/http.c:134-262 | a whole session, messages without a body included, through the server collector's fields and 32-bit counters appends each body to its file and ends idle with the last message counted, whatever the segmentation |
| `HttpCollector.CollectClient` | src/protocols/http.c:265-405 | the same through the client collector |
| `HttpCollector.CollectOpenServer` | src/protocols/http.c:205-252 | a message without a length through the server collector's fields, as long as the total stays below 2^32-1 |
| `HttpCollector.CollectOpenClient` | src/protocols/http.c:340-394 | the same through the client collector |
| `HttpCollector.StrayMissesHeader` | src/protocols/http.c:138-172 | behind a complete header the byte copied too many becomes one more byte of the body and reaches no extracted field |
| `HttpCollector.HeaderFieldReads` | src/protocols/http.c:426-448 | a field's value is what stands one character behind its name up to the end of its line, whichever of the two line breaks ends it |
| `HttpCollector.LengthIsAnnounced` | src/protocols/http.c:175-203 | a printed `Content-Length:` line announces its number of bytes, with 0 no body, with a negative number a body without an end |
| `HttpCollector.NoLengthIsAnnounced` | src/protocols/http.c:176-179 | a header without `Content-Length:` announces a body without an end |
| `HttpCollector.BareRequest` | src/protocols/http.c:324-355 | a request without a length and without anything behind its header leaves the collector idle and every file as it was |
| `HttpCollector.UnendedHeader` | src/protocols/http.c:146-150 | a first payload in whose C string no header ends changes nothing |
| `LogLock.WriteAppends` | src/log_truman.c:341-347 | a descriptor at the end of its file appends, in either way of opening |
| `LogLock.Log.WriteAll` | src/log_truman.c:341-347 | whatever the sizes of the partial writes, a prefix of the message is appended, and all of it when no write fails |
| `LogLock.Log.AppendRecord` | src/log_truman.c:341-351 | something is appended to this file and no other, and exactly the message and its newline when no write fails |
| `LogLock.Log.LogText` | src/log_truman.c:327-359 | one call alone: the record is appended whole if nothing fails; the semaphore stays taken exactly when the file cannot be opened |
| `LogLock.CallMovesOn` | src/log_truman.c:327-359 | every step inside brings its call nearer to its end, at most three steps and one for each byte, and leaves every other process where it is; a failed write is followed by the newline, a failed newline by giving the lock back |
| `LogLock.MutualExclusion` | src/semaphore.c:37-90 | in every interleaving semaphore value plus number of processes inside is 1, failures and kills included |
| `LogLock.LogIntact` | src/log_truman.c:327-356 | in every interleaving, whatever fails, no two records are mixed: each file is, in lock order, what each finished call has written, a beginning of its message with or without the newline, and behind it what the holder has written so far |
| `LogLock.FaultlessLog` | src/log_truman.c:327-356 | in every interleaving without a failed write each file is whole records in lock order plus at most a prefix of the holder's record |
| `LogLock.QuietLog` | src/log_truman.c:327-356 | with the lock free and no failed write the files hold whole records only |
| `LogLock.EveryWayOn` | src/log_truman.c:327-356 | after every run each process that has not left can take any of the steps of its phase, with partial writes of every size and every failure |
| `LogLock.LeftLockedIsFinal` | src/log_truman.c:329-339 | after any run some process can take a step if and only if no call of the run failed to open its file or was killed inside |
| `Relay.TcpHandler.constructor` | src/tcp_handler.c:207-229 | the state before the loop, with the target determined once |
| `Relay.TcpHandler.SetTarget` | src/tcp_handler.c:54-96 | target, destination and offline mark after choosing the target, by mode and protocol |
| `Relay.TcpHandler.OnUnknown` | src/tcp_handler.c:133-205 | an unidentified protocol: redirection without connecting, identification by port, or one attempt, after which a client whose target is not reached is shut down |
| `Relay.TcpHandler.ConnectToTarget` | src/tcp_handler.c:301-331 | the attempt for an identified protocol and its fallback |
| `Relay.TcpHandler.IdentifyClient` | src/tcp_handler.c:290-332 | identification of a client payload, interception of TLS included |
| `Relay.TcpHandler.OnServerData` | src/tcp_handler.c:245-276 | one server payload, through the HTTP handler's own rewriting where that applies, is one step of the transition function |
| `Relay.TcpHandler.OnClientData` | src/tcp_handler.c:277-342 | one client payload is one step of the transition function |
| `Relay.TcpHandler.OnTimeout` | src/tcp_handler.c:343-353 | a timeout is one step of the transition function |
| `Relay.RunHandler` | src/tcp_handler.c:207-365 | the loop over any possible list of events ends in the state of the abstract run; in full proxy mode without short writes the client got what the target sent |
| `Relay.RelayIsFaithful` | src/tcp_handler.c:244-342 | on every run an unedited direction loses of the bytes sent nothing but a last unsent payload if and only if no write was short, and adds nothing |
| `Relay.EditsByProtocol` | src/protocols/http.c:140-143 | on every run only HTTP server data is ever edited downwards, never in full proxy mode, and only SMTP and IRC upwards |
| `Relay.Transparent` | src/tcp_handler.c:244-360 | full proxy transparency on every run, in both directions, in terms of the bytes that each side sent, as an if-and-only-if with short writes; for HTTP it rests on what the modelled handler leaves in the buffer |
| `Relay.ProtocolIsFirstTold` | src/tcp_handler.c:263-291 | on every run the protocol is the first one told: by a payload of either side or, in full emulation, by port 21, 25 or 6667 once a client payload or a timeout tells nothing else |
| `Relay.EndsIff` | src/tcp_handler.c:244-358 | on every run the loop has been left if and only if the last event is a close, a failed read, a refused write, or a timeout after identification |
| `Relay.TargetIsSent` | src/tcp_handler.c:334-341 | on every run the target is sent exactly what was taken of the client's payloads, in order, those of SMTP and IRC as their handlers leave them |
| `Relay.ClientIsSent` | src/protocols/http.c:138-143 | on every run an HTTP payload of a local stand-in between messages reaches the client with the recorded server type, any other payload as it is |
| `Relay.OfflineTypeReads` | src/protocols/http.c:138-143 | on every run a client that is sent the whole of such a payload reads the recorded type in it, exactly under the condition of `ServerReadsBack` |
| `Relay.ProtocolStays` | src/tcp_handler.c:263-291 | an identified protocol never changes |
| `Relay.ConnectionStays` | src/tcp_handler.c:296-331 | a connected relay stays connected and attempts nothing more |
| `Relay.RecordedDestination` | src/tcp_handler.c:296-303 | when a payload shows the protocol of a connection that is there already, only the interception of TLS changes the recorded destination |
| `Relay.AtMostOneConnection` | src/tcp_handler.c:296-331 | on every run all attempts but possibly the last failed, and connected means the last succeeded |
| `Relay.UnreachedGetsNothing` | src/tcp_handler.c:190-196 | on every run, while no target is reached nothing is passed on in either direction, and after a failed attempt the client is shut down or the loop is over |
| `Relay.ShutIsFinal` | src/tcp_handler.c:192-194 | a client that is shut down stays so and receives nothing more |
| `Relay.OfflineByMode` | src/tcp_handler.c:54-96 | on every run the offline mark is never set in full proxy, always in full emulation, and in half proxy if and only if an attempt for an identified protocol has failed |
| `Relay.EmulationIsLocal` | src/tcp_handler.c:64-77 | on every run in full emulation each attempt for HTTP goes to the configured address and port 80, for FTP to port 21, IRC 6667, SMTP 25, and the connection is recorded as one to there; while the protocol is unknown no destination is recorded |
| `Relay.FallbackIsLocal` | src/tcp_handler.c:305-331 | half proxy tries the original server first and the protocol's own local one exactly when that fails, records that one, and goes on exactly when one of them answers |
| `Relay.HalfProxyFallsBack` | src/tcp_handler.c:301-331 | on every run in half proxy mode without interception or redirection every attempt goes to the original destination or, directly after one that failed, to the protocol's local server |
| `Relay.EveryOpeningTries` | src/tcp_handler.c:189-331 | every client payload and every timeout that finds neither protocol nor connection makes one attempt, in half proxy mode a second one if the protocol is shown and the first fails, and the connection is there if and only if one succeeds |
| `Relay.ProxyReachesOriginal` | src/tcp_handler.c:180-196 | in full proxy mode without interception or redirection every attempt on every run goes to the original destination |
| `Relay.InterceptionIsLocal` | src/tcp_handler.c:99-131 | on every run with interception on, outside full emulation, every attempt for TLS goes to the interceptor on this host |
| `Relay.HoneypotNeverConnects` | src/tcp_handler.c:133-159 | on every run to one of the nine redirected ports nothing is attempted and nothing relayed while the protocol is unknown |
| `Relay.HoneypotRedirects` | src/tcp_handler.c:133-159 | on every such run the connection is recorded as one to the honeypot as soon as a payload or a timeout has told nothing |
| `FtpPassive.TokensOfLines` | src/protocols/ftp.c:56-61 | a payload of any number of lines is read as exactly its non-empty lines, in order |
| `FtpPassive.OtherCodes` | src/protocols/ftp.c:68-110 | a line says nothing if and only if it starts with neither 227 nor 229 |
| `FtpPassive.ScanOctets` | src/protocols/ftp.c:78-84 | the loop joins the four parts with dots, or stops where a comma is missing |
| `FtpPassive.ScanPasv` | src/protocols/ftp.c:68-108 | the scan of a 227 line equals its grammar, with the port in 16 bits |
| `FtpPassive.PasvIff` | src/protocols/ftp.c:71-100 | the scan of a 227 line stays on the line if and only if a parenthesis has at least five commas behind it |
| `FtpPassive.EpsvIff` | src/protocols/ftp.c:112-117 | the scan of a 229 line stays on the line if and only if a bar follows the three characters behind a parenthesis |
| `FtpPassive.LinesIff` | src/protocols/ftp.c:58-130 | a payload is read without leaving a line if and only if each of its lines can be scanned |
| `FtpPassive.FiveParts` | src/protocols/ftp.c:78-95 | a reply with five numbers instead of six takes the source over the end of the line |
| `FtpPassive.PartsRead` | src/protocols/ftp.c:68-108 | a 227 line with any six numbers gives the dotted address and the last two numbers as a port cut down to 16 bits |
| `FtpPassive.PasvReadsBack` | src/protocols/ftp.c:68-108 | a 227 reply printed after section 4.1.2 of RFC 959 gives back its address and any port below 65536 |
| `FtpPassive.EpsvReadsBack` | src/protocols/ftp.c:110-124 | a 229 reply printed after section 3 of RFC 2428 gives back its port at the connection's address; a larger number is cut down to 16 bits |
| `FtpPassive.RepliesAnnounce` | src/protocols/ftp.c:68-124 | both replies are recognised by their code and leave exactly the printed announcement |
| `FtpPassive.PayloadAnnounces` | src/protocols/ftp.c:56-130 | a payload of any number of lines leaves exactly the address of a printed reply standing, whatever stood before and whatever lines come before it, as long as the lines after it have other codes |
| `FtpPassive.FtpControl.constructor` | src/protocols/ftp.c:45-51 | nothing is announced at first |
| `FtpPassive.FtpControl.HandleServer` | src/protocols/ftp.c:41-133 | the announcement after a payload is what its lines leave standing; the source leaves a line exactly when one cannot be scanned |
| `FtpPassive.FtpControl.HandleClient` | src/protocols/ftp.c:135-194 | the first client line inserts one row for a standing announcement and clears it; without one nothing changes |
| `FtpPassive.RowDescribes` | src/protocols/ftp.c:159-178 | the row for a line has the announced address, what stands before the line's first blank as type and what stands behind it as file name; without a blank the line up to its end, and no file name |
| `FtpPassive.DescribedOnce` | src/protocols/ftp.c:159-178 | a line has only one such type and file name |
| `FtpPassive.CommandConsumes` | src/protocols/ftp.c:159-189 | a command line consumes a standing announcement: its row has the command as type and the argument, with the carriage return that ends the line, as file name; a command alone has none |
| `FtpPassive.AwaitedTable.Insert` | src/protocols/ftp.c:175-185 | one row is added |
| `FtpPassive.AwaitedTable.IsAwaited` | src/protocols/proto_ident_truman.c:154-171 | recognised if and only if a row has this original destination and port |
| `FtpPassive.AwaitedTable.Delete` | src/log_postgres.c:308-310 | exactly the rows of that destination and port go |
| `FtpPassive.LastOneStands` | src/protocols/ftp.c:58-130 | a later announcement in a payload supersedes the earlier ones |
| `FtpPassive.RunsIff` | src/protocols/ftp.c:58-130 | a history of any control and data connections can be followed to its end if and only if every server line in it can be scanned |
| `FtpPassive.StandingIsOutstanding` | src/protocols/ftp.c:41-194 | in every interleaving a control connection remembers its latest announcement since its client last spoke |
| `FtpPassive.TableIsAwaited` | src/protocols/ftp.c:159-189 | in every interleaving the table has exactly one row for each consumed announcement not yet cleared by a logged data connection |
| `FtpPassive.RowsTellLines` | src/protocols/ftp.c:159-189 | in every interleaving the rows of an address are, in order, one for each client line that consumed an announcement of it and was not cleared since, with that line's type and file name |
| `FtpPassive.RecognisedIff` | src/protocols/proto_ident_truman.c:154-171 | a data connection is recognised if and only if some announcement of its address was consumed and none to it logged since |
| `FtpPassive.Bookkeeping.Perform` | src/protocols/ftp.c:41-194 | one event on the connections' records and the shared table is one step of the history |
| `FtpPassive.Recognise` | src/protocols/proto_ident_truman.c:154-171 | the same end to end on the records and the table, for every history of control and data connections, with the types and file names of the rows |
| `FtpPassive.LoggingClears` | src/log_postgres.c:297-312 | after logging, a new announcement is needed if and only if actual and original destination agree |
| `DnsResolver.DecodeName` | src/dns_resolver.c:134-147 | the do-while loop terminates and yields each label with a dot, or leaves its buffers exactly where the specification says so |
| `DnsResolver.DecodesIff` | src/dns_resolver.c:134-147 | for every message: the loop yields a name if and only if the message goes on with labels of up to 127 bytes, none after the first empty, that spell the name and fit the buffer |
| `DnsResolver.NameDecodes` | src/dns_resolver.c:134-147 | an encoded name decodes to its labels joined by dots if and only if it has a label or, for the root name, the next byte is zero too |
| `DnsResolver.ReadsWithin` | src/dns_resolver.c:138-146 | a name that ends inside the message is decoded from it alone |
| `DnsResolver.SplitInverts` | src/dns_resolver.c:138-147 | splitting the decoded name gives the labels back if and only if none contains a dot |
| `DnsResolver.Reencodes` | src/dns_resolver.c:138-147 | encoding the decoded name gives the original bytes if and only if no label contains a dot |
| `DnsResolver.BuildResponse` | src/dns_resolver.c:159-174 | r+16 bytes: the reply to the query, with the resolved address unless it is zero, else the fake one |
| `DnsResolver.HandleRequest` | src/dns_resolver.c:122-175 | for every datagram: ignored if and only if the opcode is not 0, answered if and only if the name decodes and the reply fits |
| `DnsResolver.QueryDecodes` | src/dns_resolver.c:134-147 | the name of a well-formed query is decoded whatever stale bytes follow; that of the root if and only if the question's type is below 256 |
| `DnsResolver.AnswerQuery` | src/dns_resolver.c:122-175 | end to end: a well-formed query with one question, for the root name one with a type below 256, is answered; every answer has r+16 bytes that read back as its identifier, its question and the real address, or the fake one |
| `DnsResolver.NameReads` | src/dns_resolver.c:164-165 | the reference reader of RFC 1035, section 4.1.4, reads an encoded name back |
| `DnsResolver.ReplyReads` | src/dns_resolver.c:159-174 | the reference reader reads back identifier, question and one A answer for the queried name with TTL 60, if and only if the query counted one question |
| `PathTree.BackToSlash` | src/helper_file.c:146-149 | the backward scan stops at the last slash |
| `PathTree.Extract` | src/helper_file.c:137-173 | directory up to the last slash of all, file name from the last slash before the question mark |
| `PathTree.PartsMakeRequest` | src/helper_file.c:137-173 | the directory ends in a slash, the file name has none, and together they are the location without its query if and only if no slash follows the question mark |
| `PathTree.CreatePathTree` | src/helper_file.c:88-126 | directories, working directory and result are those of the specified walk, whether it succeeds or fails |
| `PathTree.BuildTree` | src/helper_file.c:217-278 | what is made and where the process stands afterwards, success or not; skipped exactly in the three listed cases; without dots and from outside the base the working directory is restored if and only if no directory on the way is refused |
| `PathTree.WalkMakesPlaces` | src/helper_file.c:95-122 | a walk along any names adds exactly the directories passed on the names it gets through, plus one made but not given away; it fails if and only if it comes to a directory that is missing and refused |
| `PathTree.RestoredIff` | src/helper_file.c:265-276 | exactly when the saved working directory is in force again |
| `PathTree.LeftInBase` | src/helper_file.c:265-268 | an input on which it is not |
| `PathTree.WalkMakesPrefixes` | src/helper_file.c:95-122 | without `.` and `..` these are the directories along the names, down from the start |
| `PathTree.ContainedIff` | src/helper_file.c:95-122 | everything made lies below the start if and only if no `..` leads to a missing directory outside |
| `PathTree.NeverAboveIsContained` | src/helper_file.c:95-122 | names that never climb above the start make nothing outside it |
| `PathTree.MadeBeside` | src/helper_file.c:95-122 | names that make a directory beside the start |
| `PathTree.WholePathExists` | src/helper_file.c:95-122 | the whole path exists afterwards if and only if the walk got through all its names, or was stopped at the last one by chown alone |
| `PathTree.LocationSplits` | src/helper_file.c:137-173 | any location, query or not, splits into exactly its directories and the name before its first question mark |
| `PathTree.LocationHasParts` | src/helper_file.c:137-173 | every location that starts with a slash has such parts |
| `PathTree.PrepareDirectory` | src/protocols/http.c:60-76 | for every location whose directory names are not empty, blank, `.` or `..`, its query included: it fails if and only if a missing directory is refused; otherwise all its directories, and only those, are newly made below `/var/www/localhost/htdocs` or `/home/ftp`, the parent of the file among them; and exactly when the working directory is restored |

## Left out

* TLS (`src/ssl_handler.c`, `src/protocols/ssl.c`): in `Relay` interception only changes the recorded destination.
* PostgreSQL, SQLite and the text of SQL statements: the awaited-row table is a sequence of rows whose inserts and
  deletes succeed; the server type of an earlier reply is a parameter.
* The XML dump, the log directories and the choice of a log path in `src/log_truman.c`.
* `src/helper_net.c`, `src/wrapper.c`, `src/signals.c`, `src/dispatching.c`: thin wrappers of system calls.
* `src/udp_handler.c`, `parse_conntrack`, the control commands and `src/main.c`: little state.
* The payload signatures in `src/protocols/proto_ident_truman.c:64-151`: the protocol that a payload shows is
  arbitrary in `Relay`.
* The SMTP and IRC edits of client payloads: arbitrary in `Relay`, and excluded from the transparency claim.
* Allocation failures, freeing, and the sizes of the buffers that receive header fields, file names and log paths.
* Body files that cannot be opened: `append_binarydata_to_file` always appends here.
* Failing semaphore calls, and progress: that a waiting process ever gets the lock is not claimed and, by
  `LeftLockedIsFinal`, not true.
- IniFile.DumpParses: the whole-file round trip is stated one way, for dumpable tables; the exact condition is proved for one line (EntryReadsBack), because a line that does not read back can be masked by another line of the same file.
- IniFile.BareDumpParses: a NULL value is printed as the text `(null)`, as glibc does.
- HttpCollector.Collector.ContinueServer: sums of counter and payload length are 64 bits wide, as on an LP64 system, before they are stored in 32 bits.
- HttpFields.Manipulate: the server type is shorter than 100 characters, as the source's buffer demands; what a query without a result leaves in that buffer is not modelled.
- FtpPassive.FtpControl.constructor: the record is zeroed, as the source does when the server speaks first; a record created by a client payload is left unset there.
- Relay.TcpHandler.OnServerData: whether the HTTP handler is in the middle of a body is arbitrary at each payload, not carried over from the one before.
- PathTree.Extract: the location starts with a slash, as the source's comment demands; without one its scan leaves the string.
- PathTree.CreatePathTree: the file system holds directories only, without links, permissions or owners; which directories cannot be made or given away is fixed beforehand, and every existing directory can be entered.
- DnsResolver.ReplyReads: one question and nothing behind it; additional records in the query are copied before the answer and are not read by the reference reader.
