# A model of the sensor base station's core code

A Dafny project about five parts of the repository: the jsoncpp library that the
base station links, the OpenZWave serial driver, two containers of OpenZWave,
the synchronisation between the OpenZWave control panel and its browser page,
and the decoder for the heat meter's M-Bus packets.

| files | source | form |
|---|---|---|
| `JsonValue`, `JsonOrder` | `Value::operator<`, `==`, `compare`, `CZString` | functions on the value tree |
| `JsonNumber`, `JsonString` | integers as text, quoting, `\u` escapes, UTF-8 | functions; buffers and loops as methods |
| `JsonLexer`, `JsonParser`, `JsonReader` | class `Reader` | class with a moving position, against functions of the document |
| `JsonText`, `JsonStyled`, `JsonWriters` | `FastWriter`, `StyledWriter` | classes that append to a document, against functions of the value |
| `JsonGrammar`, `JsonReading` | what RFC 8259 calls a JSON text, and the reader | data type of texts, theorems |
| `JsonRoundTrip` | writers and reader together | theorems |
| `ZWaveMsg` | class `Msg` | class that builds a frame in place |
| `ZWaveQueue`, `ZWaveDriver` | class `Driver` | class whose methods are the steps of a run |
| `ZWaveLedger`, `ZWaveRun` | `WakeUp::QueueMsg`, `SendPending` and the driver over time | record of what was put aside, theorems over runs |
| `ZWavePoll` | the poll list of `Driver` | class and theorem over rounds |
| `BitWords`, `Bitfield` | class `Bitfield` | class over 32-bit words |
| `Group` | class `Group` | class over a map |
| `ControlPanel` | `MyNode`, `SendPollResponse`, `PollReply` | server and browser objects, and the two together |
| `HeatMeter` | `heatmeter_receive.py` | methods against functions of the packet |

The main results, each for all inputs:

* **JSON.** Every JSON text of RFC 8259, with any whitespace, any escapes of Unicode
  scalar values and any order of members, its numerals being integers or doubles,
  reads as its value exactly if the nesting is at most 1000 deep; otherwise the
  reader throws. Of members with the same name the last one counts. A backslash that
  starts no escape and a missing comma are refused.
  So reading what either writer wrote gives the value back up to the tag of integers.
  `StyledWriter` and `FastWriter` agree up to whitespace outside strings exactly
  if no object key contains a NUL. The reader always stops, within the document,
  with one error or a value. `StyledWriter` indents each line by three blanks a level.
  Keys come in the order of a dictionary. The order on the values whose containers hold at most
  n entries is strict and total exactly for n up to 2^31-1. Integer
  text is exact at the edge of 64 bits. Escaped text decodes to UTF-8 (section 3
  of RFC 3629; section 7 of RFC 8259).
* **Driver.** The methods of `Driver` are the steps of a run: each requires and ensures
  the invariant `Valid`, which the constructor establishes, so that it holds in every
  state between steps of every run. It says: a message is outstanding exactly
  while something is awaited, queue events say which queues have something to
  send, every message taken from a queue has exactly one fate, and attempts stay
  within a limit that only a CAN raises. What is written is the frame of the payload
  that was queued. The forced completions break the first
  part exactly when the byte they await is zero.
* **Sleeping nodes.** The invariant holds a record of everything that was ever put
  aside for each node: it waits, or was handed over when the node woke up, or went
  with its node, or gave way to a later copy, of which the same can be said
  (`NothingForgotten`). `Run` makes any sequence of steps: turns of the thread,
  messages, stages, commands, nodes that fall asleep, wake up, fail, come and go.
  When a node falls asleep, any steps follow, and it wakes up, everything that
  was moved for it and everything that waited before arrived (`SleepAndWake`): if
  it neither woke up nor was replaced in between, it is queued now, itself or
  the last of its later copies. A copy is what the source's comparison says: a
  message with the same payload, an equal stage, or the same command with the same
  callback, whatever node it is about. The comparison also takes messages for copies
  of which one has a callback id and the other has one byte more; `MatchesExactly`
  and `CopyMeans` say exactly when.
* **Frames.** A finished frame is accepted by the receiver's test; changing any one
  byte behind the length is noticed; encapsulation can be undone.
* **Polling.** After R full rounds it was a value's turn R divided by its period times.
* **Bitfield** and **Group** refine sets, with the exact conditions under which the
  iterator and the size shortcut do not.
* **Control panel.** `Panel` holds server and browser; its invariant is established
  by its constructor and kept by every step, and after every poll of every run
  the browser shows exactly the live nodes.
* **Heat meter.** Decoding inverts encoding; the last block about a quantity counts;
  exactly the packets of well-formed blocks up to an end mark are accepted.

Where the code and its comments disagree the model follows the code:

* The comment on forced completion says that the transaction is forced to
  complete; with a zero byte in the place of the callback id it is not. The handlers
  for assigning and deleting return routes and for network updates report failure
  only for a zero byte, so that its response never completes the transaction there;
  `StuckTransaction` runs into this from the start of a run.
* What the source comments as the end of an empty object is also reached behind a
  comma: `{"":1,}` is accepted, while a comma behind any other member is refused.
* The heat-meter comment describes DIF 2F as an empty data block; the code
  refuses it between blocks. DIF 0F ends the data only if the byte behind it is
  below 80 hexadecimal, because that byte is looked at first.
* `OnGroupChanged` compares sizes to find out whether nodes differ; a report that
  repeats an association can hide that another one is gone.

## Model

| member | source | states |
|---|---|---|
| `JsonOrder.Trichotomy` | zwave/IDEALzwave/jsoncpp.cpp:2919-2963 | any two real-free values are ordered in exactly one direction, unless they are the same value |
| `JsonOrder.Transitive` | zwave/IDEALzwave/jsoncpp.cpp:2919-2963 | the order is transitive, through containers compared by size first and then entry by entry |
| `JsonOrder.EqualIsIdentity` | zwave/IDEALzwave/jsoncpp.cpp:2971-3013 | `==` holds exactly for structurally identical values |
| `JsonOrder.CompareMeansEqual` | zwave/IDEALzwave/jsoncpp.cpp:2911-2917 | `compare` is zero exactly for equal values, -1 exactly for smaller ones, and swapping its arguments negates it |
| `JsonOrder.OrderExact` | zwave/IDEALzwave/jsoncpp.cpp:2919-2963 | the order on the values whose containers hold at most n entries is strict and total exactly if n is at most 2^31-1 |
| `JsonOrder.KeyTrichotomy` | zwave/IDEALzwave/jsoncpp.cpp:2682-2704 | any two keys are ordered in exactly one direction, unless they are equal |
| `JsonOrder.KeyTransitive` | zwave/IDEALzwave/jsoncpp.cpp:2682-2693 | the byte-wise order of keys is transitive |
| `JsonOrder.KeyOrder` | zwave/IDEALzwave/jsoncpp.cpp:2682-2693 | a key comes before another exactly if it is a proper prefix of it or has the smaller byte at the first place where they differ |
| `JsonOrder.ScalarOrder` | zwave/IDEALzwave/jsoncpp.cpp:2919-2963 | the order of types, and of numbers, truth values and strings among themselves |
| `JsonOrder.ArrayOrder` | zwave/IDEALzwave/jsoncpp.cpp:2919-2963 | arrays: the shorter one first, or the first element that differs decides |
| `JsonOrder.ObjectOrder` | zwave/IDEALzwave/jsoncpp.cpp:2919-2963 | objects: the smaller one first, or the first member that differs decides by its name and then its value |
| `JsonOrder.SizeDeltaExact` | zwave/IDEALzwave/jsoncpp.cpp:2954-2957 | the difference of sizes cut down to 32 bits is the true one exactly while it fits |
| `JsonNumber.UintToString` | zwave/IDEALzwave/jsoncpp.cpp:149-155 | the digits and the NUL end up right before the start position, at most 21 bytes of the buffer are used and the rest is untouched |
| `JsonNumber.IntToString` | zwave/IDEALzwave/jsoncpp.cpp:4080-4094 | the text of a signed 64-bit number, the smallest one included |
| `JsonNumber.UIntToString` | zwave/IDEALzwave/jsoncpp.cpp:4096-4102 | the text of an unsigned 64-bit number is its decimal notation |
| `JsonNumber.DecimalDenotes` | zwave/IDEALzwave/jsoncpp.cpp:149-155 | decimal notation denotes its number and has no leading zero |
| `JsonNumber.DigitsAre` | zwave/IDEALzwave/jsoncpp.cpp:149-155 | the ten digits, and what each of them counts |
| `JsonNumber.DecodeInteger` | zwave/IDEALzwave/jsoncpp.cpp:752-792 | the accumulator loop computes the specification and stays within 64 bits |
| `JsonNumber.IntegerIffFits` | zwave/IDEALzwave/jsoncpp.cpp:752-792 | digits decode as an integer exactly if their value is at most 2^64-1, or 2^63 behind a minus sign, whatever zeros lead |
| `JsonNumber.DecodeInvertsPrint` | zwave/IDEALzwave/jsoncpp.cpp:752-792 | decoding the printed text of any 64-bit integer gives it back, up to its tag |
| `JsonString.Utf8OfScalar` | zwave/IDEALzwave/jsoncpp.cpp:104-130 | the bytes of every Unicode scalar value read back as that value by an independent UTF-8 decoder |
| `JsonString.SpellingDecodes` | zwave/IDEALzwave/jsoncpp.cpp:827-878 | a literal of legal pieces, escaped or not, decodes to its meaning |
| `JsonString.ShortEscapeMeans` | zwave/IDEALzwave/jsoncpp.cpp:836-862 | the eight escapes of one letter are those of section 7 of RFC 8259, each with its code point |
| `JsonString.HexDigitsAre` | zwave/IDEALzwave/jsoncpp.cpp:909-936 | the hexadecimal digits in either case, and what each of them counts |
| `JsonString.EscapeIff` | zwave/IDEALzwave/jsoncpp.cpp:827-936 | a backslash is refused exactly if no escape starts there: one of the eight letters, or four hexadecimal digits, behind a first half of a surrogate pair once more |
| `JsonString.BadEscapeRefused` | zwave/IDEALzwave/jsoncpp.cpp:827-936 | such a backslash behind any good characters makes the whole literal fail |
| `JsonString.EscapedTextIsUtf8` | zwave/IDEALzwave/jsoncpp.cpp:827-936 | scalar values written as escapes, with surrogate pairs above U+FFFF and each digit in either case, decode to exactly their UTF-8 encoding |
| `JsonString.ValueToQuotedStringN` | zwave/IDEALzwave/jsoncpp.cpp:4227-4290 | the quoting loop, with its shortcut for plain text, gives the specified literal |
| `JsonString.ValueToQuotedString` | zwave/IDEALzwave/jsoncpp.cpp:4150-4210 | quoting a C string quotes what stands before its first NUL |
| `JsonString.QuotedMeans` | zwave/IDEALzwave/jsoncpp.cpp:4227-4290 | a quoted string means the string, for all bytes |
| `JsonString.QuotedIsClean` | zwave/IDEALzwave/jsoncpp.cpp:4227-4290 | no control character stands in a quoted string, and what needs no escape stands for itself |
| `JsonLexer.CStyleEnds` | zwave/IDEALzwave/jsoncpp.cpp:589-596 | a comment in stars ends behind the first star and slash, and is closed exactly if there is such a pair |
| `JsonLexer.LineEnds` | zwave/IDEALzwave/jsoncpp.cpp:598-612 | a comment behind two slashes ends behind the first line break in any of its three forms, or with the document |
| `JsonLexer.CommentSkipped` | zwave/IDEALzwave/jsoncpp.cpp:535-612 | the next token is the one behind the comment; a slash that starts no comment, or one that is not closed, is an error |
| `JsonReader.Reader.ReadToken` | zwave/IDEALzwave/jsoncpp.cpp:443-512 | the scanner moves to the end of the token that the document has at its position |
| `JsonReader.Reader.ReadComment` | zwave/IDEALzwave/jsoncpp.cpp:535-612 | both kinds of comments end where the specification says |
| `JsonReader.Reader.ReadNumber` | zwave/IDEALzwave/jsoncpp.cpp:614-634 | the number scanner stops behind integer part, fraction and exponent |
| `JsonReader.Reader.ReadString` | zwave/IDEALzwave/jsoncpp.cpp:636-646 | the string scanner stops behind the closing quote that is not escaped |
| `JsonReader.Reader.DecodeString` | zwave/IDEALzwave/jsoncpp.cpp:827-878 | decoding stays inside the token and agrees with the specification in text and in errors |
| `JsonReader.Reader.DecodeUnicodeCodePoint` | zwave/IDEALzwave/jsoncpp.cpp:880-936 | surrogate pairs and their two error cases |
| `JsonReader.Reader.RecoverFromError` | zwave/IDEALzwave/jsoncpp.cpp:948-967 | errors met while recovering are forgotten, and the reader moves to the sought token or the end |
| `JsonReader.Reader.ReadValue` | zwave/IDEALzwave/jsoncpp.cpp:349-431 | the value, the one new error or the exception of the specification; the position never moves back or past the end |
| `JsonReader.Reader.ReadArray` | zwave/IDEALzwave/jsoncpp.cpp:704-740 | the same for arrays |
| `JsonReader.Reader.ReadObject` | zwave/IDEALzwave/jsoncpp.cpp:648-702 | the same for objects |
| `JsonReader.Reader.Parse` | zwave/IDEALzwave/jsoncpp.cpp:307-347 | on every document the reader ends: with a value and no error, with failure and exactly one error, or with the exception |
| `JsonParser.ThrowNeedsNesting` | zwave/IDEALzwave/jsoncpp.cpp:349-353 | only a document with enough opening brackets makes the reader throw |
| `JsonParser.PutIsMapUpdate` | zwave/IDEALzwave/jsoncpp.cpp:648-702 | storing a member keeps the keys sorted and unique and replaces an earlier member of the same name |
| `JsonParser.ReadKeepsSorted` | zwave/IDEALzwave/jsoncpp.cpp:349-431 | every value that is read has sorted keys at all levels |
| `JsonText.CompactIsTight` | zwave/IDEALzwave/jsoncpp.cpp:4307-4367 | the compact text is the layout without whitespace |
| `JsonText.RenderStrips` | zwave/IDEALzwave/jsoncpp.cpp:4307-4367 | removing whitespace outside strings from any layout of a value gives its compact text |
| `JsonReading.JsonReads` | zwave/IDEALzwave/jsoncpp.cpp:349-740 | inside any document and at any depth, a JSON text is read to its end as its value, or the reader throws because of its depth |
| `JsonReading.TextReads` | zwave/IDEALzwave/jsoncpp.cpp:307-512 | parsing any JSON text, with whitespace around it, gives its value exactly if its depth is at most 1000 |
| `JsonReading.LiteralRead` | zwave/IDEALzwave/jsoncpp.cpp:636-646 | a string literal is one token, however it is spelled, and decodes to its meaning |
| `JsonReading.NumeralRead` | zwave/IDEALzwave/jsoncpp.cpp:614-634 | a numeral with fraction and exponent is one token |
| `JsonReading.MissingCommaInArray` | zwave/IDEALzwave/jsoncpp.cpp:704-740 | good elements with something else than a comma or the closing bracket behind them are refused there, whatever follows |
| `JsonReading.MissingCommaInObject` | zwave/IDEALzwave/jsoncpp.cpp:648-702 | likewise members |
| `JsonReading.CommaEndsArray` | zwave/IDEALzwave/jsoncpp.cpp:704-740 | a comma in front of the closing bracket is refused |
| `JsonReading.CommaEndsObject` | zwave/IDEALzwave/jsoncpp.cpp:648-702 | a comma in front of the closing brace is accepted exactly if the name of the member before it is empty |
| `JsonGrammar.LastMemberWins` | zwave/IDEALzwave/jsoncpp.cpp:648-702 | the members of an object are those of its names, each with its last value, sorted |
| `JsonRoundTrip.PrintedIsText` | zwave/IDEALzwave/jsoncpp.cpp:4307-4367 | what is printed is a JSON text, also with unsorted or repeated names |
| `JsonRoundTrip.PrintedMeans` | zwave/IDEALzwave/jsoncpp.cpp:4307-4367 | it stands for the value, up to the tags of integers |
| `JsonWriters.FastWriter.Write` | zwave/IDEALzwave/jsoncpp.cpp:4307-4367 | the written document is the compact text and a line feed |
| `JsonWriters.StyledWriter.Write` | zwave/IDEALzwave/jsoncpp.cpp:4375-4384 | the written document is the indented text, and the indentation is empty again |
| `JsonWriters.StyledWriter.WriteValue` | zwave/IDEALzwave/jsoncpp.cpp:4386-4443 | what is appended, to the document or to the collected texts of a line, for every type of value |
| `JsonWriters.StyledWriter.WriteArrayValue` | zwave/IDEALzwave/jsoncpp.cpp:4445-4486 | an array in one line or in several, with the texts that were collected while measuring |
| `JsonWriters.StyledWriter.IsMultilineArray` | zwave/IDEALzwave/jsoncpp.cpp:4488-4513 | the decision, with the line length in 32 bits; there are as many collected texts as entries when the array goes into one line |
| `JsonStyled.StyledRenders` | zwave/IDEALzwave/jsoncpp.cpp:4386-4543 | the indented text is a layout of the value whose keys are cut at their first NUL |
| `JsonStyled.StyledIsPretty` | zwave/IDEALzwave/jsoncpp.cpp:4386-4543 | the indented text is that of a printer that starts every line with three blanks a level |
| `JsonStyled.MarginDecides` | zwave/IDEALzwave/jsoncpp.cpp:4488-4513 | an array is on one line exactly if it has fewer than 25 entries, no nonempty container among them, and the line has fewer than 74 characters |
| `JsonStyled.PrintersAgree` | zwave/IDEALzwave/jsoncpp.cpp:4375-4543 | the two writers agree up to whitespace outside strings exactly if all keys are free of NUL |
| `JsonStyled.StyledRoundTrip` | zwave/IDEALzwave/jsoncpp.cpp:4375-4543 | the indented text is read up to the depth limit, and what is read is the value if and only if all keys are free of NUL |
| `JsonRoundTrip.NormIsSame` | zwave/IDEALzwave/jsoncpp.cpp:752-792 | the value that is read is the same up to the tag of integers |
| `JsonRoundTrip.RenderReads` | zwave/IDEALzwave/jsoncpp.cpp:349-740 | inside any document and at any depth, a value in any layout is read to its end, or the reader throws because of its depth |
| `JsonRoundTrip.TextRoundTrip` | zwave/IDEALzwave/jsoncpp.cpp:307-512 | parsing any layout of a value, with whitespace around it, gives the value exactly if its depth is at most 1000 |
| `JsonRoundTrip.FastRoundTrip` | zwave/IDEALzwave/jsoncpp.cpp:4307-4367 | parsing the document of the fast writer gives the value exactly if its depth is at most 1000 |
| `ZWaveMsg.Msg.constructor` | zwave/open-zwave-master/cpp/src/Msg.cpp:50-89 | the first four bytes, and the reply that a message expects |
| `ZWaveMsg.Msg.SetInstance` | zwave/open-zwave-master/cpp/src/Msg.cpp:94-125 | which encapsulation a message gets, also when it had one, and the command class then expected |
| `ZWaveMsg.Msg.Append` | zwave/open-zwave-master/cpp/src/Msg.cpp:131-137 | one byte behind the others; the 256th byte makes the length wrap to zero |
| `ZWaveMsg.Msg.MultiEncap` | zwave/open-zwave-master/cpp/src/Msg.cpp:252-298 | shifting the bytes in place inserts the header behind the length of the payload |
| `ZWaveMsg.Msg.Finalize` | zwave/open-zwave-master/cpp/src/Msg.cpp:143-186 | the buffer becomes the frame of the encapsulated payload, once, with the next callback id if it needs one |
| `ZWaveMsg.Msg.UpdateCallbackId` | zwave/open-zwave-master/cpp/src/Msg.cpp:193-214 | the frame stays one of the same payload, with a new id and a fitting checksum |
| `ZWaveMsg.CallbackCounter.Take` | zwave/open-zwave-master/cpp/src/Msg.cpp:160-170 | ids are never below ten, also when the counter wraps |
| `ZWaveMsg.Msg.SetMaxSendAttempts` | zwave/open-zwave-master/cpp/src/Msg.h:118 | the limit on attempts stays below seven |
| `ZWaveMsg.Msg.MatchesExactly` | zwave/open-zwave-master/cpp/src/Msg.h:129-139 | when two finished messages are equal, for all kinds: the same payload, or, if only one of them has a callback id, a payload with one byte more |
| `ZWaveMsg.Mistaken` | zwave/open-zwave-master/cpp/src/Msg.h:129-139 | two equal messages that carry different payloads |
| `ZWaveMsg.FrameAccepted` | zwave/open-zwave-master/cpp/src/Driver.cpp:1649-1678 | a finished frame has the length that it announces and passes the receiver's checksum |
| `ZWaveMsg.DamageDetected` | zwave/open-zwave-master/cpp/src/Driver.cpp:1665-1678 | changing any one byte behind the length makes an accepted frame fail |
| `ZWaveMsg.EncapsulationUndone` | zwave/open-zwave-master/cpp/src/Msg.cpp:252-298 | taking the three or four inserted bytes out again recovers the body |
| `ZWaveMsg.EncapsulationBytes` | zwave/open-zwave-master/cpp/src/Msg.cpp:252-298 | the four or three inserted bytes, and the length of the payload that grows by as many |
| `ZWaveMsg.PayloadRecovered` | zwave/open-zwave-master/cpp/src/Msg.cpp:143-186 | the payload can be read off a frame |
| `ZWaveQueue.SplitConserves` | zwave/open-zwave-master/cpp/src/Driver.cpp:1337-1412 | splitting a queue by node loses and duplicates nothing |
| `ZWaveQueue.ThrownMembers` | zwave/open-zwave-master/cpp/src/Driver.cpp:1349-1368 | what is deleted are exactly the target's NoOperation and WakeUpNoMoreInformation messages |
| `ZWaveQueue.OthersInOrder` | zwave/open-zwave-master/cpp/src/Driver.cpp:1337-1412 | what stays in a queue are all items about other nodes, in their order |
| `ZWaveQueue.KeptInOrder` | zwave/open-zwave-master/cpp/src/Driver.cpp:1337-1412 | what moves are all items about the node that are not disposable, in their order |
| `ZWaveQueue.KeptOfAllInOrder` | zwave/open-zwave-master/cpp/src/Driver.cpp:1337-1412 | one queue after the other |
| `ZWaveQueue.RemainingInOrder` | zwave/open-zwave-master/cpp/src/Driver.cpp:564-610 | what is left in a queue when a node is removed, in its order |
| `ZWaveQueue.WithoutInOrder` | zwave/open-zwave-master/cpp/src/command_classes/WakeUp.cpp:374-419 | what waits and is no copy of a new item keeps its order |
| `ZWaveQueue.PartsInOrder` | zwave/open-zwave-master/cpp/src/command_classes/WakeUp.cpp:421-473 | what is handed over comes in the order in which it waited, for messages and for commands |
| `ZWaveQueue.CopyMeans` | zwave/open-zwave-master/cpp/src/Driver.h:663-682 | what it means that a waiting message is a copy of a new one |
| `ZWaveQueue.QueuedSurvives` | zwave/open-zwave-master/cpp/src/command_classes/WakeUp.cpp:374-419 | an item that was queued is in the final list, or a chain of copies, each queued later than the one before, ends in an item that is |
| `ZWaveQueue.PendingSurvives` | zwave/open-zwave-master/cpp/src/command_classes/WakeUp.cpp:374-419 | an item that was pending is still there, or gave way to a queued copy that survives |
| `ZWaveQueue.NothingElseQueued` | zwave/open-zwave-master/cpp/src/command_classes/WakeUp.cpp:374-419 | nothing else is in the list |
| `ZWaveQueue.QueueAllAppends` | zwave/open-zwave-master/cpp/src/command_classes/WakeUp.cpp:374-419 | without copies, queuing items appends them in order |
| `ZWaveQueue.MoveLosesNothing` | zwave/open-zwave-master/cpp/src/Driver.cpp:1272-1425 | an item at any place of any queue stays, or was disposable, or survives in the wake-up list, itself or as a copy moved later; what was pending survives as well |
| `ZWaveLedger.NotedWaits` | zwave/open-zwave-master/cpp/src/command_classes/WakeUp.cpp:374-419 | what the record says to wait changes as the wake-up queue does |
| `ZWaveLedger.GivesWayIff` | zwave/open-zwave-master/cpp/src/command_classes/WakeUp.cpp:374-419 | of items put aside together, one gives way exactly if one behind it is its copy |
| `ZWaveLedger.FateOf` | zwave/open-zwave-master/cpp/src/command_classes/WakeUp.cpp:374-458 | once nothing waits any more, the last to take an item's place was handed over, unless something was abandoned |
| `ZWaveLedger.StillWaits` | zwave/open-zwave-master/cpp/src/command_classes/WakeUp.cpp:374-458 | while the node neither wakes up nor is replaced, the last to take an item's place waits |
| `ZWaveDriver.Driver.RetryBound` | zwave/open-zwave-master/cpp/src/Driver.cpp:1111-1242 | a fresh message is written at most six times, and at most once more than CANs were received |
| `ZWaveDriver.Driver.WriteMsg` | zwave/open-zwave-master/cpp/src/Driver.cpp:1111-1242 | writes exactly if attempts are left and the node is not dead; what is written is the frame of the payload, with a new id from the second attempt on, which is the id then expected; otherwise the message is dropped and a controller command fails |
| `ZWaveDriver.Driver.WireIsFrame` | zwave/open-zwave-master/cpp/src/Driver.cpp:1111-1242 | what is written is an intact frame that carries the id before its checksum |
| `ZWaveDriver.Driver.GivesUpIff` | zwave/open-zwave-master/cpp/src/Driver.cpp:1138-1163 | a message with attempts left is given up exactly if its node is known to be dead and it is not the NoOperation that probes nodes |
| `ZWaveDriver.Driver.RemoveCurrentMsg` | zwave/open-zwave-master/cpp/src/Driver.cpp:1248-1266 | nothing is outstanding and nothing is awaited |
| `ZWaveDriver.Driver.SendMsg` | zwave/open-zwave-master/cpp/src/Driver.cpp:941-1005 | a message goes to its queue, or to the wake-up queue of a sleeping node, or is replaced there by the controller command in progress; it says what was handed over, encapsulated |
| `ZWaveDriver.Driver.SendQueryStageComplete` | zwave/open-zwave-master/cpp/src/Driver.cpp:869-907 | the item goes to the query queue or to the wake-up queue |
| `ZWaveDriver.Driver.QueueMsg` | zwave/open-zwave-master/cpp/src/command_classes/WakeUp.cpp:374-419 | older copies go, the item comes last, its attempts start again |
| `ZWaveDriver.Driver.UpdateControllerState` | zwave/open-zwave-master/cpp/src/Driver.cpp:5439-5482 | a new final state finishes the command and sets the event of the controller queue |
| `ZWaveDriver.Driver.BeginControllerCommand` | zwave/open-zwave-master/cpp/src/Driver.cpp:5079-5118 | a fresh command item, with its callback, at the end of the controller queue, unless there is no command |
| `ZWaveDriver.Driver.TakeMsg` | zwave/open-zwave-master/cpp/src/Driver.cpp:1020-1030 | the front message becomes the outstanding one, when there was none |
| `ZWaveDriver.Driver.NextCommand` | zwave/open-zwave-master/cpp/src/Driver.cpp:1059-1101 | a finished command leaves its queue; a new one is started, or kept as a copy in the wake-up queue of its sleeping target, or fails; a changed one is reported, else the event is reset |
| `ZWaveDriver.Driver.WriteNextMsg` | zwave/open-zwave-master/cpp/src/Driver.cpp:1009-1105 | what becomes of the item at the front, for its three kinds, and that it exists; the frame of a message is written; nothing else is taken from any queue |
| `ZWaveDriver.Driver.MoveQueue` | zwave/open-zwave-master/cpp/src/Driver.cpp:1337-1412 | one queue keeps the items of other nodes in order, its event is reset exactly if nothing stays, the rest is queued for wake-up in order |
| `ZWaveDriver.Driver.MoveMessagesToWakeUpQueue` | zwave/open-zwave-master/cpp/src/Driver.cpp:1272-1425 | when messages move: every queue, the wake-up queue, the current message and the controller command afterwards; when not, nothing but the sleeping state changes |
| `ZWaveDriver.Driver.SendPending` | zwave/open-zwave-master/cpp/src/command_classes/WakeUp.cpp:421-473 | the node is awake, and everything that waited for it is queued by its kind and in order, controller commands begun anew, and the farewell behind it |
| `ZWaveDriver.Driver.SetAwake` | zwave/open-zwave-master/cpp/src/command_classes/WakeUp.cpp:340-368 | waking up hands over what waited; falling asleep moves nothing |
| `ZWaveDriver.Driver.MovedIsWhole` | zwave/open-zwave-master/cpp/src/Driver.cpp:1337-1412 | whatever is queued about the node moves, unless it is disposable |
| `ZWaveDriver.Driver.CommandDeletedIff` | zwave/open-zwave-master/cpp/src/Driver.cpp:1272-1425 | the command in progress is deleted, before its copy is made, exactly if an equal command about the node is queued behind it |
| `ZWaveRun.SleepAndWake` | zwave/open-zwave-master/cpp/src/Driver.cpp:1272-1425 | a node falls asleep, any steps follow, it wakes up: what was moved and what waited before arrived, itself or the last of its later copies |
| `ZWaveRun.NothingForgotten` | zwave/open-zwave-master/cpp/src/command_classes/WakeUp.cpp:374-458 | in every state, what was ever put aside waits, was handed over, or went with its node, itself or the last of its later copies |
| `ZWaveRun.Run` | zwave/open-zwave-master/cpp/src/Driver.cpp:410-484 | any sequence of steps keeps the invariant and every record: only a node that wakes up has items handed over, only one that is replaced or removed loses them |
| `ZWaveRun.Do` | zwave/open-zwave-master/cpp/src/Driver.cpp:410-484 | so does each step |
| `ZWaveDriver.Driver.InitNode` | zwave/open-zwave-master/cpp/src/Driver.cpp:4328-4369 | a new node replaces an old one, whose pending items are gone |
| `ZWaveDriver.Driver.DeleteNode` | zwave/open-zwave-master/cpp/src/Driver.cpp:3691-3703 | a removed node takes along what waits for it, but not what is queued |
| `ZWaveDriver.Driver.RemoveQueues` | zwave/open-zwave-master/cpp/src/Driver.cpp:564-610 | only items of other nodes and the controller command in progress stay, in order |
| `ZWaveDriver.Driver.HandleCallback` | zwave/open-zwave-master/cpp/src/Driver.cpp:2245-2303 | a transaction completes exactly when everything awaited has been answered; what is still awaited otherwise |
| `ZWaveDriver.Driver.ReadFrame` | zwave/open-zwave-master/cpp/src/Driver.cpp:1610-1688 | a frame is acknowledged exactly if it is intact, and only then handled |
| `ZWaveDriver.Driver.HandleCan` | zwave/open-zwave-master/cpp/src/Driver.cpp:1690-1710 | the limit rises by one below its own limit and the message is written again, with a new id |
| `ZWaveDriver.Driver.HandleAck` | zwave/open-zwave-master/cpp/src/Driver.cpp:1729-1747 | an ACK completes a message exactly if nothing else is awaited |
| `ZWaveDriver.Driver.ReadMsg` | zwave/open-zwave-master/cpp/src/Driver.cpp:1600-1760 | every input keeps the invariant; the outstanding message stays or ends as completed or dropped, not both; a frame completes it exactly if it is intact and answers everything awaited; CAN and NAK write it again or drop it |
| `ZWaveDriver.Driver.Turn` | zwave/open-zwave-master/cpp/src/Driver.cpp:410-484 | every turn of the thread keeps the invariant and never replaces an outstanding message; a queue is served only when nothing is outstanding, loses its front item alone, and its message is written as a frame or dropped; a timeout or a frame leaves the queues and wake-up queues as they are; timeouts write the message again |
| `ZWaveDriver.Driver.ForceCompletion` | zwave/open-zwave-master/cpp/src/Driver.cpp:1936-1942 | the forced completion completes exactly if the byte is not zero; with zero the message stays with nothing awaited |
| `ZWaveDriver.Driver.HandleAssignReturnRoute` | zwave/open-zwave-master/cpp/src/Driver.cpp:2688-2709 | a failed command is never completed by its response |
| `ZWaveDriver.WrittenTransaction` | zwave/open-zwave-master/cpp/src/Driver.cpp:1111-1242 | the first frame of a run, byte for byte |
| `ZWaveDriver.CompletedTransaction` | zwave/open-zwave-master/cpp/src/Driver.cpp:2245-2303 | from the start of a run, a message that is queued, written, acknowledged and answered by the controller is complete |
| `ZWaveDriver.StuckTransaction` | zwave/open-zwave-master/cpp/src/Driver.cpp:2688-2709 | from the start of a run, a queued, written and acknowledged message with a zero response stays outstanding with nothing awaited |
| `ZWavePoll.Poller.EnablePoll` | zwave/open-zwave-master/cpp/src/Driver.cpp:3915-3975 | a known value enters the list once, with its intensity as counter |
| `ZWavePoll.Poller.PollNext` | zwave/open-zwave-master/cpp/src/Driver.cpp:4163-4232 | the front entry goes to the end with a new counter; when its turn has come it is requested, or noted for the waking up of its sleeping node, or leaves the list if its value has gone |
| `ZWavePoll.RoundOver` | zwave/open-zwave-master/cpp/src/Driver.cpp:4163-4185 | a full round turns every entry once and polls those that are due, in order |
| `ZWavePoll.PollsAreFair` | zwave/open-zwave-master/cpp/src/Driver.cpp:4163-4197 | after R rounds the list is in its order and it was each value's turn R divided by its period times, a zero intensity counting as 256 |
| `BitWords.NoneFromSplits` | zwave/open-zwave-master/cpp/src/Bitfield.h:126-137 | the mask test, one bit at a time |
| `Bitfield.Bitfield.Set` | zwave/open-zwave-master/cpp/src/Bitfield.h:44-56 | the set gains the index, and nothing else |
| `Bitfield.Bitfield.Clear` | zwave/open-zwave-master/cpp/src/Bitfield.h:58-65 | the set loses the index, and nothing else |
| `Bitfield.Bitfield.IsSet` | zwave/open-zwave-master/cpp/src/Bitfield.h:67-74 | membership |
| `Bitfield.Bitfield.CountIsExact` | zwave/open-zwave-master/cpp/src/Bitfield.h:76 | the count is the number of elements, unless all 2^32 indices are set |
| `Bitfield.BitsLeft` | zwave/open-zwave-master/cpp/src/Bitfield.h:124-130 | the mask is zero exactly if no bit is left in the word |
| `Bitfield.Iterator.NextSetBit` | zwave/open-zwave-master/cpp/src/Bitfield.h:121-143 | the next index is the smallest larger element, or the end |
| `Bitfield.Visit` | zwave/open-zwave-master/cpp/src/Bitfield.h:111-150 | a loop from `Begin` to `End` visits the elements once each in increasing order; with an index from 2^32-32 on it visits nothing |
| `Group.NothingMissed` | zwave/open-zwave-master/cpp/src/Group.cpp:345-393 | without repeated entries the comparison of sizes decides whether the sets are equal |
| `Group.MissedWitness` | zwave/open-zwave-master/cpp/src/Group.cpp:345-393 | a report of one association twice hides that a group of two has lost the other |
| `Group.Group.OnGroupChanged` | zwave/open-zwave-master/cpp/src/Group.cpp:345-422 | the associations are the reported ones except when repeated entries hide a loss; watchers are told exactly when sizes or members differ or the report is empty |
| `Group.Group.OnNodesChanged` | zwave/open-zwave-master/cpp/src/Group.cpp:322-339 | reported node ids become associations without instance; without repeated ids exactly these are left |
| `Group.Group.GetAssociations` | zwave/open-zwave-master/cpp/src/Group.cpp:461-481 | all associations, by node and then by instance |
| `Group.Group.GetNodes` | zwave/open-zwave-master/cpp/src/Group.cpp:430-455 | the nodes of the associations without instance, in increasing order |
| `ControlPanel.Registry.Add` | zwave/open-zwave-control-panel-master/ozwcp.cpp:80-92 | a new or replaced node is flagged, and a number out of range is ignored |
| `ControlPanel.Registry.Remove` | zwave/open-zwave-control-panel-master/ozwcp.cpp:115-128 | a live node leaves and is listed as removed |
| `ControlPanel.Registry.AddValue` | zwave/open-zwave-control-panel-master/ozwcp.cpp:152-158 | the value comes last and the node is flagged |
| `ControlPanel.Registry.RemoveValue` | zwave/open-zwave-control-panel-master/ozwcp.cpp:164-184 | the first occurrence goes and the node is flagged in any case |
| `ControlPanel.WithoutFirst` | zwave/open-zwave-control-panel-master/ozwcp.cpp:164-184 | nothing but the first occurrence of a value goes |
| `ControlPanel.Registry.SetAllChanged` | zwave/open-zwave-control-panel-master/ozwcp.cpp:435-447 | the scan that stops early still flags every live node |
| `ControlPanel.Registry.DrainRemoved` | zwave/open-zwave-control-panel-master/webserver.cpp:711-722 | the text is the removed ids joined by commas, and the list is empty |
| `ControlPanel.Registry.CollectChanged` | zwave/open-zwave-control-panel-master/webserver.cpp:724-790 | the scan that stops early reports every flagged node once, in order, and clears its flag |
| `ControlPanel.NoneBehind` | zwave/open-zwave-control-panel-master/webserver.cpp:725-727 | behind as many changed nodes as there are nodes there is no other |
| `ControlPanel.SplitJoin` | zwave/open-zwave-control-panel-master/cp.js:208-211 | splitting the text at commas gives the names that were joined |
| `ControlPanel.Browser.PollReply` | zwave/open-zwave-control-panel-master/cp.js:206-239 | removed nodes go first, then the reported ones are stored |
| `ControlPanel.PollSynchronises` | zwave/open-zwave-control-panel-master/cp.js:203-239 | applying the answer to a poll gives exactly the live nodes with their contents |
| `ControlPanel.SyncedAfterChange` | zwave/open-zwave-control-panel-master/ozwcp.cpp:152-195 | adding, replacing or changing a node keeps browser and server in step for the next poll |
| `ControlPanel.SyncedAfterRemove` | zwave/open-zwave-control-panel-master/ozwcp.cpp:115-128 | so does removing one |
| `ControlPanel.FreshBrowserInSync` | zwave/open-zwave-control-panel-master/webserver.cpp:1036-1037 | flagging every node serves a browser that shows nothing yet |
| `ControlPanel.SyncedAfterFlagging` | zwave/open-zwave-control-panel-master/webserver.cpp:1036-1037 | and so does flagging every node, whatever the browser shows |
| `ControlPanel.Panel.constructor` | zwave/open-zwave-control-panel-master/ozwcp.cpp:62-75 | an empty server and an empty browser are in step |
| `ControlPanel.Panel.AddNode` | zwave/open-zwave-control-panel-master/ozwcp.cpp:80-92 | adding or replacing a node keeps server and browser in step |
| `ControlPanel.Panel.RemoveNode` | zwave/open-zwave-control-panel-master/ozwcp.cpp:115-128 | so does removing one |
| `ControlPanel.Panel.AddValue` | zwave/open-zwave-control-panel-master/ozwcp.cpp:152-158 | so does adding a value |
| `ControlPanel.Panel.RemoveValue` | zwave/open-zwave-control-panel-master/ozwcp.cpp:164-184 | so does removing one |
| `ControlPanel.Panel.SaveValue` | zwave/open-zwave-control-panel-master/ozwcp.cpp:191-195 | so does a changed value |
| `ControlPanel.Panel.FlagAll` | zwave/open-zwave-control-panel-master/ozwcp.cpp:435-447 | so does flagging every node, for a browser that shows something or nothing |
| `ControlPanel.Panel.Poll` | zwave/open-zwave-control-panel-master/webserver.cpp:709-791 | after every poll of every run the browser shows exactly the live nodes, as they are |
| `HeatMeter.DecodeBcd` | heatmeter_receive.py:44-64 | two digits a byte, and zero as soon as a digit is above nine |
| `HeatMeter.BcdRoundTrip` | heatmeter_receive.py:44-64 | decoding inverts n bytes of decimal digits below 100 to the n |
| `HeatMeter.BcdBack` | heatmeter_receive.py:44-64 | good digits are those of their value, which is below 100 to the n |
| `HeatMeter.BadDigitIsZero` | heatmeter_receive.py:44-64 | one digit above nine makes the whole number zero |
| `HeatMeter.MatchVif` | heatmeter_receive.py:121-130 | the masks of the table select one range of codes for each quantity |
| `HeatMeter.CodesMean` | heatmeter_receive.py:66-90 | the codes of each quantity are one range, and the power of ten grows by one a code from that of the least code |
| `HeatMeter.Decode` | heatmeter_receive.py:132-215 | on every packet decoding ends, with the reading, the refusal or the exception of the specification |
| `HeatMeter.BlocksRead` | heatmeter_receive.py:165-213 | any list of well-formed blocks with an end mark is read in full |
| `HeatMeter.EndRead` | heatmeter_receive.py:167-191 | the end mark ends the data exactly if the byte behind it is below 80 hexadecimal |
| `HeatMeter.PacketRoundTrip` | heatmeter_receive.py:132-215 | decoding an encoded packet gives its header fields and the collected blocks |
| `HeatMeter.LastBlockCounts` | heatmeter_receive.py:66-90 | of several blocks about one quantity the last one counts, with its value and its power of ten |
| `HeatMeter.PacketYields` | heatmeter_receive.py:132-215 | a packet reads, for each quantity, as the value of the last block about it and the power of ten by the place of its code in the range |
| `HeatMeter.AcceptedExactly` | heatmeter_receive.py:132-215 | a packet gives a reading exactly if its header has the right length, control byte and check and its body is well-formed blocks with an end mark |
| `HeatMeter.ExamplePacket` | heatmeter_receive.py:17-40 | the example packet reads as 24 kWh, 0.59 cubic metres, no flow, no power and 19.0 and 17.9 degrees |

## Left out

- Doubles: their arithmetic and printing are not modelled; a double is the numeral it was read from, and which numerals are doubles is a parameter.
- jsoncpp comments are skipped, not collected; byte offsets of values, sparse arrays and null string pointers are not part of the model.
- `ZWaveMsg.Msg.MultiEncap`: a message of four or five bytes that sends data is excluded, because the source would change a byte that was never written; so are frames longer than the buffer.
- `ZWaveMsg.Msg.Finalize`: the same messages are excluded.
- Strings of 2^30 bytes or more, and failing allocations, are not modelled.
- The other reader (`OurReader`), the stream writers and `Path` of jsoncpp are near copies or separate features.
- The contents of the root value after a failed parse are not stated, only the error and the position.
- `JsonOrder.Trichotomy`: containers hold at most 2^31-1 entries; `JsonOrder.OrderExact` says that beyond it the order fails.
- `JsonOrder.Transitive`: the same limit.
- `JsonOrder.CompareMeansEqual`: the same limit.
- `JsonReading.TextReads`: an escape that names half a surrogate pair is not part of the grammar here; numerals that are not integers of 64 bits are taken to be doubles that the stream reads. Which other documents the reader accepts (comments, text behind the value, control characters in strings) has no grammar of its own; `JsonReader.Reader.Parse` computes it.
- `JsonReading.CommaEndsArray`: comments between the tokens are not part of the refused texts, as in the lemmas about missing commas.
- `JsonStyled.MarginDecides`: a line of 2^31 bytes or more, whose length wraps around, is excluded; `JsonWriters.StyledWriter.IsMultilineArray` has it.
- `JsonReader.Reader.ReadValue`: the stack of nodes under construction is replaced by results; the depth counter is the source's.
- Encryption and nonces: messages are not encrypted, and no nonce report is pending.
- `ZWaveDriver.Driver.ReadFrame`: the handlers that `ProcessMsg` calls for each function are left out, but for the forced completion; whether generic handling follows is an input.
- `ZWaveDriver.Driver.ReadMsg`: the same handlers are left out.
- `ZWaveDriver.Driver.NextCommand`: the messages of `DoControllerCommand` are a parameter; whether a command can be started at all is part of it.
- `ZWaveDriver.Driver.NextStage`: what a node does when a query stage completes is left out, as is `RetryQueryStageComplete`.
- `ZWaveDriver.Driver.WriteMsg`: statistics, log output and notifications are left out, and time only appears as timeouts.
- Threads: each region under a mutex is one step; callbacks that call back into the driver are not modelled.
- `ZWaveDriver.Driver.QueueMsg`: objects are not freed in the model. That each message and command object has a single place is not stated; `CommandDeletedIff` says when a deletion hits the command in progress.
- `ZWaveDriver.Driver.SetNodeAlive`: the queries that a revived node restarts and the notifications are left out.
- `ZWaveRun.Run`: a forced completion with a zero byte, which breaks the invariant, is not one of the steps; a frame whose handler does more than complete the message is several steps, one after the other.
- `ZWaveDriver.Driver.SetAwake`: the poll that a node requires when it wakes up changes its query stage, which is not modelled.
- `ZWaveDriver.Driver.SendPending`: whether all queries of the node have completed, which decides about the farewell, is an input.
- `ZWaveDriver.Driver.InitNode`: the query of the new node and its notifications are left out.
- `ZWavePoll.Poller.PollNext`: the messages that a request queues, the waiting time and the lock that is kept when a value has gone are left out; whether the node sleeps is an input.
- `Bitfield.Iterator.NextSetBit`: with all 2^27 words in use and no further bit set the search does not end; this case is excluded.
- `Bitfield.Visit`: with all 2^27 words in use and no bit set the search for the first bit does not end; this case is excluded.
- `Group.Group.OnGroupChanged`: command requests, route updates and the text of notifications are left out; more than 255 associations, for which the loops do not end, are excluded.
- `Group.Group.OnNodesChanged`: the same, for more than 255 nodes.
- Commands of an association (`ClearCommands`, `AddCommand`) and the XML form of a group are left out.
- `ControlPanel.Panel.Poll`: one browser; two browsers would take each other's changes. Locks, the log lines and the admin state of the answer are left out.
- `ControlPanel.Registry.DrainRemoved`: the fixed size of the text buffer is not modelled.
- `ControlPanel.Registry.CollectChanged`: groups, the sorting of values and the attributes that the manager supplies are not part of a node's contents.
- `ControlPanel.Browser.PollReply`: nor are they stored in the browser.
- `HeatMeter.Decode`: the time stamp is the system clock's; the model only says that there is one.
- Serial, HID, HTTP, MQTT and file access, logging, `idealoz.cpp`, `currentcost_receive.py`, the user interface and the lookup tables are left out.
