# NymphRPC in Dafny

A model of the logic of NymphRPC, a binary remote procedure call library, and proofs about it.

| file | what it holds |
|---|---|
| `Bytes`, `Options` | octets, little-endian integers, "these octets stand at this offset" |
| `Values` | value trees, their announced size and their encoding; size law and unambiguity |
| `Parser` | `parseValue` as a function of the buffer; the round trip |
| `Lengths` | the `length` that the parser adds up, and what it is for values that were sent |
| `NymphTypes` | the `NymphType` objects: trees on the heap, written through an advancing index and read back |
| `Messages` | messages, their length, how a receiver reads them; the round trip with slack |
| `NymphMessages` | the `NymphMessage` objects: building, `serialize`, the parsing constructor |
| `Framing` | the receive loops of both sides, on octets that arrive in arbitrary portions |
| `MethodTable` | the printed method table and its reader |
| `Registry` | the name map and the ID map, over histories of registrations and removals |
| `Wire` | values, messages and the method table octet by octet, as the protocol lists them |
| `Histories` | the two maps after any history, told from its registrations and removals |
| `Dispatch` | synchronisation, the IDs a client counts, and which method a call runs |
| `NymphMethods` | the `NymphMethod` objects and the pair of maps, as classes |
| `Rpc` | a call, a synchronisation and a whole session, from one end of a connection to the other and back |
| `Calls`, `CallsProgress` | callers, listener thread, pending map and request objects, as a transition system |
| `CallsOutcome` | what a call returns, which messages are stored and when in time, told from the steps of a run |
| `CallsWaiting` | who is held up by whom, and a whole call on its own |
| `Delivery` | a session's octets against the callers that wait: each gets the answer to its own call |
| `SocketListener` | the listener's map and the handling of one message, as classes |
| `Pool`, `PoolProgress`, `PoolDecisions` | the worker pool, one step for each critical section |
| `PoolOrder` | the order of the two queues, to whom a request is given, and who is held up |
| `Dispatcher` | `addRequest` and `addWorker` as single steps, and as methods of a class |
| `Ownership` | reference counts, `discard`, and what the destructors delete |

Conventions. A value is a tree; numbers, floating point included, are bit patterns, since the source
copies memory. A struct is the list of its entries in the order in which its map is iterated. Octet
strings are `seq<Byte>`. Where the source works in place, a class or a method over an array does the
work and its contract ties the new state to a function of the old one; the theorems are about these
functions. The two concurrent protocols are state machines with one step for each critical section;
their theorems hold over every finite run from the initial state.

What does not hold of the code in general is proved together with the exact condition under which it
does:

* A value is rebuilt by the parser if and only if no struct in it has an empty key and every struct
  lists its keys in the order of its map (`Parser.RoundTrip`); of a struct with one empty key nothing is
  left (`Parser.EmptyKeyStruct`).
* A message is read back as it was sent under the same condition (`Messages.MessageRoundTrip`);
  `Messages.EmptyKeyCallMistaken` is a call with one value that is taken for a call with three.
* A method table is read back if and only if names and parameter lists have at most 255 entries
  (`MethodTable.TableRoundTrip`); `MethodTable.LongNameLost` says what is read for a name of 256.
* The two maps of a registry agree if and only if no name was registered while it was present
  (`Registry.AgreeIff`); after one such registration they do not (`Dispatch.DuplicateDisagrees`).
* No ID leads to an erased method if and only if no name is removed after it was registered while
  present (`Dispatch.HistoryLive`); `Dispatch.DuplicateDangles` is a history that leaves such an ID.
* A call by name runs the method of that name if and only if the server's IDs have no gap before it
  and nymphsync was not registered again (`Dispatch.DispatchIff`, over histories
  `Dispatch.HistoryDispatch`); `Dispatch.WrongMethodRuns` is a history after which another method runs.
* The receive loops recover the messages if and only if each header arrives in one portion
  (`Framing.FramesIff`); a message whose header comes in two is lost (`Framing.SplitHeaderLoses`).
* A call returns an answer if and only if one was stored for it before it timed out
  (`CallsOutcome.AnsweredInTime`); one that is stored later is lost, with a request that is never
  deleted (`CallsOutcome.SignalledReturns`).
* Between its two locks the dispatcher can leave a request behind: work is conserved if and only if no
  decision is overtaken, which the order of the critical sections tells
  (`PoolDecisions.ConservingIffNoneOvertaken`); for a pool of any size,
  `PoolProgress.LeftBehindReachable` is a run that comes to rest with a waiting request while all
  workers wait.
* Deleting a parsed message without `discard` is right if and only if no value refers back to it
  (`Ownership.DirectDeleteIff`); one with a single text is deleted twice (`Ownership.TextDeletedTwice`).
* An object that has held an empty string stands for a new text if and only if that is empty as well
  (`NymphTypes.NymphType.SetString`), since the source never takes `emptyString` back.

Where comments and code disagree, the model follows the code: `setInReplyTo` does not set the reply flag
(src/nymph_message.cpp:382-389); the length of a callback message counts the encoded name, not one octet
and the name (src/nymph_message.cpp:308-315); `getResponse(true)` leaves the response with the message
and `getResponse()` hands it over (src/nymph_message.h:79); a return type of Any is compared like any
other and is never met (src/nymph_method.cpp:115).

## Model

| member | source | states |
|---|---|---|
| Bytes.LEDigit | src/nymph_types.cpp:600-602 | octet `k` of a number is its digit at 256 to the `k`: the least significant octet comes first |
| Bytes.FromLEDigit | src/nymph_types.cpp:408-424 | reading gives every octet that place in the number |
| Values.SizeLaw | src/nymph_types.cpp:48-133 | for every tree, the size announced ahead of time is what is written plus 2 for each empty string anywhere in it, keys included |
| Values.StartsWithTypecode | src/nymph_types.cpp:491-508 | no encoded value is empty or starts with the terminator, so the loops over pairs and values stop at their own terminator |
| Values.FirstOctet | src/nymph_types.cpp:552-732 | the leading octet of an encoding announces the type of the value |
| Values.Unambiguous | src/nymph_types.cpp:552-732 | an octet string starts with the encoding of at most one value, so no encoding is a proper prefix of another |
| Values.SequenceUnambiguous | src/nymph_message.cpp:165-205 | a terminated concatenation of values can be cut into values in one way only |
| Values.FieldsUnambiguous | src/nymph_types.cpp:715-728 | the same for the entries of a struct |
| Wire.NumberOctets | src/nymph_types.cpp:574-660 | each of the ten numbers is its typecode of the protocol and 1, 2, 4 or 8 octets, the least significant first |
| Wire.TextOctets | src/nymph_types.cpp:661-713 | an empty text is one octet; any other its code, the code and octets of its length in the narrowest type that holds it, and its characters |
| Wire.TextSize | src/nymph_types.cpp:48-133 | the size counted ahead of time for a text: 3, 4, 6 or 10 and its characters, which is what is written unless it is empty |
| Wire.OtherOctets | src/nymph_types.cpp:556-573 | the octets of booleans, arrays and structs, with count and terminators in their places |
| Parser.ParseEncoded | src/nymph_types.cpp:298-525 | the encoding of a tree without empty keys, at any offset and among any octets, is parsed to the tree as its maps rebuild it, with the index just past it |
| Parser.ParsedInOrder | src/nymph_types.cpp:487-505 | whatever the octets, every struct the parser builds has ascending, distinct keys |
| Parser.EmptyKeyLost | src/nymph_types.cpp:491-503 | a tree with an empty key at any depth is never what parsing its encoding yields |
| Parser.EmptyKeyStruct | src/nymph_types.cpp:491-503 | a struct whose one key is empty: the parser fails at the key and leaves a null value |
| Parser.LessIff | src/nymph_types.cpp:504 | one key comes before another exactly if it is a proper prefix of it, or has the smaller octet where they first differ: the order of a `std::map` of strings |
| Parser.InsertAscending | src/nymph_types.cpp:504 | inserting an entry keeps a map's keys ascending and distinct, in the order of `Parser.LessIff` |
| Parser.InsertIs | src/nymph_types.cpp:504 | an insertion adds the entry if its key is new, and changes nothing else |
| Parser.FirstWins | src/nymph_types.cpp:487-505 | the map that pairs inserted in turn make up is in order and holds, for every key, the first pair that has it |
| Parser.NormaliseInOrder | src/nymph_types.cpp:504 | a tree whose structs list their keys in map order is rebuilt unchanged |
| Parser.RoundTrip | src/nymph_types.cpp:298-732 | parsing an encoding yields the very tree and ends just past it if and only if it has no empty key and its keys are in map order, which is that of `Parser.LessIff` |
| Parser.UnknownTypecode | src/nymph_types.cpp:520-525 | an octet that is no typecode is skipped as a null value |
| Parser.BadLengthType | src/nymph_types.cpp:398-440 | a text whose length has no unsigned type fails behind that octet |
| Parser.BadKeyType | src/nymph_types.cpp:491-503 | after any entries, a struct fails at an octet that begins neither a key nor the end, and is null |
| Parser.BadValue | src/nymph_types.cpp:491-503 | after any entries, it fails where the value of an entry fails |
| Parser.BadElementsKept | src/nymph_types.cpp:458-481 | an array goes on behind elements that fail, and holds what each was read as |
| Parser.AnyTerminator | src/nymph_types.cpp:469-475 | whichever octet stands behind the elements of an array is skipped |
| NymphTypes.NymphType.SetBool | src/nymph_types.cpp:228 | the object is this boolean and its length is the size of the encoding |
| NymphTypes.NymphType.SetNumber | src/nymph_types.cpp:229-238 | the object is this number and its length is the announced size |
| NymphTypes.NymphType.SetString | src/nymph_types.cpp:241-261 | the object holds this text with its announced size as length, and stands for it if and only if it held no empty string before or the text is empty |
| NymphTypes.NymphType.SetArray | src/nymph_types.cpp:264-276 | the object stands for the tree of its elements and its length, summed in a loop, is the announced size of that tree |
| NymphTypes.NymphType.SetStruct | src/nymph_types.cpp:279-293 | the same for the entries of a map |
| NymphTypes.NymphType.Serialize | src/nymph_types.cpp:552-732 | writes exactly the encoding of the tree, whose octets `Wire` lists, at the index, leaves every other octet of the buffer, and advances the index past it |
| NymphTypes.NymphType.SerializeString | src/nymph_types.cpp:661-713 | the same for strings: one octet when empty, else the narrowest of the length fields and the text; with a mark left over from an earlier text, that one octet and the text |
| NymphTypes.SerializeArray | src/nymph_types.cpp:556-573 | the same for arrays |
| NymphTypes.SerializeStruct | src/nymph_types.cpp:715-728 | the same for structs |
| Lengths.LengthEncoded | src/nymph_types.cpp:298-525 | the parser adds up for a value the very size that its sender announced, empty strings included |
| NymphTypes.NymphType.ParseValue | src/nymph_types.cpp:298-525 | builds fresh objects, none of them in two places, that stand for the tree that the parsing function yields, with the same result, index and length |
| NymphTypes.NymphType.ParseString | src/nymph_types.cpp:395-445 | the same for strings with any of the four length fields, and for a bad length type |
| NymphTypes.NymphType.ParseArray | src/nymph_types.cpp:446-481 | the same for arrays, whose length is the sum over the elements read and 10 |
| NymphTypes.NymphType.ParseStruct | src/nymph_types.cpp:482-519 | the same for structs, whose length counts every pair read, and when a key is no string or is empty |
| NymphTypes.ReadElements | src/nymph_types.cpp:458-467 | the element loop reads and counts what the parsing functions do |
| NymphTypes.ReadPairs | src/nymph_types.cpp:491-505 | the pair loop builds the map that inserting the pairs in turn makes, and counts them all |
| NymphTypes.InsertEntryModels | src/nymph_types.cpp:504 | inserting an entry of objects into the map is inserting the field it stands for |
| NymphTypes.ObjectsInsert | src/nymph_types.cpp:504 | an insertion adds the two objects of the pair, with all below them, or none when the key is there already |
| Messages.BodyLength | src/nymph_message.cpp:305-378 | what is written never exceeds the announced length, and falls short of it by exactly 2 for each empty string sent (and by what is counted for a second flag on a reply) |
| Messages.TerminatorLast | src/nymph_message.cpp:309-377 | the terminator is the last octet of the buffer if and only if no empty string is sent |
| Messages.ParseEncodedValues | src/nymph_message.cpp:188-205 | the value loop reads back the values and stops at the terminator; at the end of the octets it marks the message corrupt |
| Messages.MessageRebuilt | src/nymph_message.cpp:66-207 | for regular, callback and reply messages without empty struct keys, and whatever stands behind the terminator, the receiver recovers IDs, flags, name and values as its maps rebuild them, and does not mark the message corrupt |
| Messages.MessageRoundTrip | src/nymph_message.cpp:66-378 | it recovers the very message, not marked corrupt, if and only if no struct has an empty key and all list their keys in map order |
| Messages.EmptyKeyCallMistaken | src/nymph_message.cpp:188-205 | any call whose one value is a struct with one empty key, for true, is read, without being marked corrupt, as a call with three values |
| Messages.ValuesInOrder | src/nymph_message.cpp:188-205 | whatever octets arrive, every struct in the values of a message has ascending, distinct keys |
| Messages.TruncationNoticed | src/nymph_message.cpp:122-134 | without its terminator a message is marked corrupt, save a callback without values |
| Messages.WrongReplyTerminator | src/nymph_message.cpp:122-134 | a reply with another octet in the place of its terminator is marked corrupt, and read all the same |
| Messages.NonReplyMatchesNothing | src/nymph_message.cpp:66-72 | whatever octets arrive, a message that is not a reply replies to no message ID |
| Wire.MessageOctets | src/nymph_message.cpp:319-377 | the octets of a message: signature, length, version, method ID, flags and message ID; for a reply the ID it replies to and the result, for a callback the name and the values, else the values; and the terminator |
| Wire.FlagBits | src/nymph_message.h:26-30 | the three flags are the three lowest bits |
| Wire.NumberedIs | src/nymph_message.cpp:325-326 | a message that is no reply is sent under the ID that it is given, and is otherwise left as it is |
| NymphMessages.NymphUtilities.GetMessageId | src/nymph_utilities.cpp:47-53 | hands out the counter and moves it on |
| NymphMessages.NymphMessage.AddValue | src/nymph_message.cpp:231-238 | appends the value and keeps the content size equal to the sum of the announced sizes |
| NymphMessages.NymphMessage.AddValues | src/nymph_message.cpp:243-253 | puts the values in the place of those there were, and resets the content size to their sum, also where the result of a reply is what will be sent |
| NymphMessages.NymphMessage.SetResultValue | src/nymph_message.cpp:394-398 | makes the message a reply with this result, whatever it was before |
| NymphMessages.NymphMessage.SetCallback | src/nymph_message.cpp:427-431 | sets the callback bit and the name and keeps the rest |
| NymphMessages.NymphMessage.SetInReplyTo | src/nymph_message.cpp:383-389 | refers to the message ID, takes the next one modulo 2^64, and leaves the flags |
| NymphMessages.NymphMessage.GetReplyMessage | src/nymph_message.cpp:404-408 | a new message that answers this one, not yet a reply |
| NymphMessages.NymphMessage.Serialize | src/nymph_message.cpp:258-378 | numbers the message unless it is a reply and fills a new buffer of the announced length, within its bounds, starting with signature, length and the body of the message, whose octets `Wire.MessageOctets` lists |
| NymphMessages.NymphMessage.Parse | src/nymph_message.cpp:66-207 | builds fresh objects, none of them in two places, that hold the message that the parsing function yields, with its corrupt mark, its state and the lengths of its values |
| NymphMessages.LengthsReceived | src/nymph_message.cpp:231-238 | in a message that was sent these lengths are the sizes that the sender announced, so that received values can be sent again |
| NymphMessages.NymphMessage.ParseValuesFrom | src/nymph_message.cpp:165-205 | the value loop reads what the parsing function reads and marks the message in the same cases |
| Framing.FramesIff | src/nymph_socket_listener.cpp:64-132 | for any messages and any split into portions, the bodies are recovered, in order and with nothing dropped, if and only if the eight octets ahead of each arrive in one portion |
| Framing.SplitHeaderLoses | src/nymph_socket_listener.cpp:64-88 | a message of any body whose header comes in two portions, however they are cut, is not recovered |
| Framing.FramesSound | src/nymph_session.cpp:74-147 | on any octets, every body handed on stands behind the signature and its own length, which arrived in one portion, and behind the body before it |
| Framing.Conservation | src/nymph_session.cpp:74-147 | on any octets, what arrives is the framed messages handed on and the octets counted as dropped, unless the connection ends in a body |
| Framing.StreamSocket.ReceiveBytes | src/nymph_session.cpp:74 | puts the received octets at the offset, leaves the rest of the buffer and takes them off the stream |
| Framing.ReceiveBody | src/nymph_socket_listener.cpp:89-132 | the loop over `buffIdx` and `unread` fills the whole buffer with the next octets, or reports that the peer has left |
| Framing.ReceiveMessage | src/nymph_session.cpp:74-147 | one turn of the loop hands on, drops or breaks off as the framing function says, and always consumes something |
| Framing.ReceiveMessages | src/nymph_session.cpp:72-147 | the whole loop hands on exactly the bodies of the framing function |
| MethodTable.RecordRoundTrip | src/nymph_method.cpp:74-92 | a printed record is read back, with the index behind it, if and only if name and parameter list have at most 255 entries |
| MethodTable.TableRoundTrip | src/remote_server.cpp:105-174 | the table of any non-empty list of methods is read back as that list, to its last octet, if and only if all of them are so short |
| MethodTable.LongNameLost | src/nymph_method.cpp:74-92 | a name of 256 octets is read as no name, and its first octets as parameters and return type |
| MethodTable.ReadGivesUp | src/remote_server.cpp:131-142 | where something that is no record comes before the count is reached, reading fails and keeps the records before it |
| Wire.RecordOctets | src/nymph_method.cpp:74-92 | the octets of a printed record, with both lengths cut to one octet |
| Wire.TableOctets | src/remote_client.cpp:69-92 | the octets of the printed table: its word, the number of methods and their records |
| Registry.RegisterSound | src/remote_client.cpp:184-198 | registering keeps the maps sound, and keeps them inverse exactly if the name was absent |
| Registry.RemoveSound | src/remote_client.cpp:227-247 | removing a present method keeps the maps sound, and inverse if they were |
| Registry.AgreeIff | src/remote_client.cpp:184-247 | after any history the two maps are inverse to each other if and only if no name was registered while present |
| Registry.LiveIff | src/remote_client.cpp:184-247 | after any history no ID leads to an erased entry if and only if every removal met an entry that no other ID led to |
| Registry.CleanIff | src/remote_client.cpp:184-247 | which is so if and only if no name was removed after it had been registered while present since it was last absent |
| Registry.IdsNeverReused | src/remote_client.cpp:188 | over any history an ID that was given out stays free once it is free, and leads where it did for as long as its entry is not erased |
| Registry.RowCount | src/remote_client.cpp:76-81 | the printed count is the number of records that follow |
| Registry.RowsAre | src/remote_client.cpp:79-81 | the printed rows are the entries of the ID map in strictly ascending order |
| Registry.RowsList | src/remote_client.cpp:79-81 | no entry of the ID map is left out of the table |
| Registry.ServerRows | src/remote_client.cpp:109-113 | with nymphsync first, the table starts with it under ID 0 and only its records have ID 0 |
| Histories.MethodsTold | src/remote_client.cpp:184-247 | after any history a name is present if and only if it was registered and not removed since, and its entry is that of the first registration since then |
| Histories.IdsTold | src/remote_client.cpp:184-247 | after any history the ID given out by a registration is gone if and only if this made an entry that was removed, and else leads to the entry that the name had then |
| Histories.FromStart | src/remote_client.cpp:109-113 | a server's history is one that registers nymphsync first |
| Dispatch.SyncReadsTable | src/remote_server.cpp:105-179 | synchronising with the table that a server prints succeeds and leaves the client with the entries of its methods |
| Dispatch.SyncGivesUp | src/remote_server.cpp:131-142 | a table that is cut short by something that is no record fails, and leaves the client with the methods before it |
| Dispatch.SyncLearnsNothing | src/remote_server.cpp:107-124 | one that is too short, lacks its word or counts no methods fails and teaches nothing |
| Dispatch.ClientNames | src/remote_server.cpp:183-196 | afterwards the client knows the names of the server's methods and no others |
| Dispatch.ClientEntry | src/remote_server.cpp:128-174 | the client's entry is the signature that was registered, under the number of counted records before it, plus one |
| Dispatch.RowDispatch | src/remote_server.cpp:168-174 | the client's number of a method is the ID of a row of that method only at its first row, with no gap and no second nymphsync before it |
| Dispatch.DispatchIff | src/remote_client.cpp:203-218 | the client's ID leads the server to the method registered under the called name if and only if the server's IDs have no gap up to it and nymphsync was not registered again before it |
| Dispatch.SameIdsIff | src/remote_server.cpp:125-137 | without duplicate names, client and server have the same IDs for all methods if and only if the server's have no gap |
| Dispatch.ClientIdIsRank | src/remote_server.cpp:183-196 | without duplicate names, the client's ID is the number of smaller IDs in use at the server |
| Dispatch.HistoryLive | src/remote_client.cpp:184-247 | after any history of a server its IDs all lead to present entries if and only if no name was removed after it had been registered while present |
| Dispatch.HistoryDispatch | src/remote_client.cpp:203-218 | after any such history that leaves nymphsync, the client knows exactly the server's names, and a call by name runs that method if and only if no smaller ID is free or a second one of nymphsync |
| Dispatch.DuplicateDisagrees | src/remote_client.cpp:184-198 | after a method is registered twice its second ID leads to the entry that carries the first |
| Dispatch.DuplicateDangles | src/remote_client.cpp:184-247 | a method registered twice and then removed leaves an ID that leads to an erased entry |
| Dispatch.AddedMethodsDispatch | src/remote_client.cpp:184-223 | a server that has only registered methods, even the same name several times, runs the called method for every name |
| Dispatch.RemovalsMisdirect | src/remote_client.cpp:227-247 | with removals, it does so if and only if no method with a smaller ID is gone |
| Dispatch.WrongMethodRuns | src/remote_client.cpp:227-247 | after registering three methods and removing the first, a call of the third runs the second |
| NymphMethods.NymphMethod.SetId | src/nymph_method.cpp:74-92 | sets the ID and prints the record of the method as it now is |
| NymphMethods.NymphMethod.Call | src/nymph_method.cpp:131-160 | succeeds if and only if there are as many values as parameters and each has the type that its parameter declares or that is Any, and then has built the message with them, for a callback under its name |
| NymphMethods.Methods.RegisterMethod | src/remote_client.cpp:184-198 | moves both maps and the counter as the registry function says, with every entry printed |
| NymphMethods.Methods.RemoveMethod | src/remote_client.cpp:227-247 | takes a present method out of both maps |
| NymphMethods.Methods.FindById | src/remote_client.cpp:203-218 | finds by ID what the lookup function finds, for an ID that does not dangle |
| NymphMethods.Methods.SyncMethods | src/remote_client.cpp:69-92 | prints the table of all entries in the order of their IDs, as long as none dangles |
| NymphMethods.Methods.Sync | src/remote_server.cpp:105-179 | reads the returned octets and adds methods as the synchronisation function says, also when it gives up half way |
| NymphMethods.ReadRecordAt | src/remote_server.cpp:128-166 | reads one record as the reading function does |
| Rpc.PrepareWithIs | src/nymph_method.cpp:131-162 | for methods and callbacks: the check fails for a wrong number of values, or names the first value whose type is not that of its parameter, which is not Any; else the message carries ID, values and, for a callback, the name |
| Rpc.PreparedIff | src/remote_server.cpp:200-228 | a message is built if and only if the name is known, there are as many values as parameters, and each has the declared type or Any is declared; it then carries the values under the caller's ID of the method |
| Rpc.CallbackRead | src/nymph_message.cpp:155-181 | the message of a callback is read as a callback, under the name of the method and with its values |
| Rpc.ServeIff | src/nymph_session.cpp:149-182 | a message that arrives, with whatever flags, is answered if and only if its ID leads to a method whose callback, given the values as the parser rebuilds them, returns one of exactly the declared type; the reply carries it under the ID of the message; the ID is unknown exactly if it is not in use, and the result is refused exactly if it has another type |
| Rpc.AnswersAreTyped | src/nymph_session.cpp:149-209 | whatever octets arrive, an answer comes only from the method under the ID in them, has its declared type, goes to the message ID in them, takes the next one itself, and is a plain reply |
| Rpc.AnyNeverReplies | src/nymph_method.cpp:105-124 | a method that declares Any as its return type never gets an answer through |
| Rpc.TruncatedDropped | src/nymph_session.cpp:149-156 | a call that lost its terminator is not run |
| Rpc.OtherVersionDropped | src/nymph_message.cpp:93-100 | nor is a message of another protocol version, whatever is in it |
| Rpc.MatchesAcross | src/nymph_method.cpp:145-158 | values keep their number and their types when the parser rebuilds them, and so still match a signature |
| Rpc.ConnectionArrives | src/nymph_session.cpp:74-147 | all messages sent over a connection are handed on, in order, and read back, if no header is split |
| Rpc.WholePortionsFlow | src/nymph_session.cpp:74-147 | any messages of moderate length can be so sent over a connection: each buffer in a portion of its own |
| Rpc.EndToEnd | src/nymph_session.cpp:165-209 | signature check, message, framing, parser, lookup by ID, handler, return type check and the way back, wherever among other messages the call stands: the method of the called name gets the values and the caller gets its result, of the declared type, under its own ID |
| Rpc.SyncEndToEnd | src/remote_server.cpp:91-179 | the call of nymphsync goes through likewise, and the table that the server prints leaves the client with the maps that `Rpc.EndToEnd` needs |
| Rpc.Session | src/remote_server.cpp:91-262 | over one connection to a server of any history without dangling IDs, a client synchronises and then calls any methods without a gap before them; if the server sends what it computes for the bodies that arrive, every call runs its method and every answer can be read under the ID of its call |
| Calls.RunSound | src/remote_server.cpp:200-262 | in every interleaving IDs are distinct, map and stages agree, locks are held by whom the stages say, and the listener is busy only with a pending call |
| Calls.Lifetime | src/remote_server.cpp:235-262 | a request is deleted at most once, only with an answer, off the map and with the listener not busy with it; one that timed out never |
| Calls.ListenerTouchesLive | src/nymph_socket_listener.cpp:158-184 | the listener locks, writes, signals and unlocks only pending requests that have not been deleted |
| Calls.Correlation | src/nymph_socket_listener.cpp:142-184 | in every run a call that returns an answer returns the last message stored under its own ID, and is not pending once it has returned |
| CallsOutcome.SignalledReturns | src/remote_server.cpp:232-262 | a call that has returned has returned an answer if and only if it was signalled, and nothing if and only if it timed out; the answer is then the last one stored under its ID, and its request is deleted, once |
| CallsOutcome.AnsweredInTime | src/nymph_socket_listener.cpp:171-177 | it has returned an answer if and only if one was stored for it before it timed out |
| CallsOutcome.SignalledInTime | src/nymph_socket_listener.cpp:175-177 | a request has been signalled if and only if an answer was stored in it before its caller timed out |
| CallsOutcome.EveryMatchStored | src/nymph_socket_listener.cpp:156-184 | in every run the messages that came for a pending call are the ones that have been stored, in this order, and the one that the listener is at: none is lost |
| CallsOutcome.PendingIff | src/nymph_socket_listener.cpp:227-247 | a call is pending from its addMessage to its removeMessage |
| CallsOutcome.ScriptFollowed | src/remote_server.cpp:200-262 | what a caller has done is the beginning of the steps of callMethod in their order, and all of them if and only if it has returned |
| CallsOutcome.IdsInOrder | src/nymph_utilities.cpp:41-53 | message IDs are 1, 2, 3 and so on in the order in which callers take them |
| Calls.LastIsLast | src/nymph_socket_listener.cpp:171-177 | what is meant by the last message stored under an ID |
| Calls.StrayReply | src/nymph_socket_listener.cpp:158-167 | a message that replies to 0, or to a call that is not pending, changes nothing |
| Calls.OffMapKept | src/nymph_socket_listener.cpp:237-247 | no step of the listener or of another caller changes a call that is not pending |
| Calls.ReturnedKept | src/remote_server.cpp:240-262 | what a call has returned stays as it is whatever comes later |
| CallsProgress.NoDeadlock | src/remote_server.cpp:200-262 | though callers take five locks and the listener two of them in the other order, some of them can always go on until all calls have returned |
| CallsProgress.Finishes | src/remote_server.cpp:228-262 | from every state that can be reached, callers and listener can bring all calls to their return without another message |
| CallsProgress.CallsReturn | src/remote_server.cpp:228-262 | a run has at most fourteen steps for each call and five for each message, so every call returns unless messages never end |
| CallsWaiting.CallerHeldIff | src/remote_server.cpp:200-262 | a caller can go on if and only if it is not held up by one of these: by another public call under way, ahead of its request by one that makes and sends its own, at the pending map by another caller inside or by the listener at work, after its wait by the listener in its request |
| CallsWaiting.ListenerHeldIff | src/nymph_socket_listener.cpp:142-184 | the listener waits only for a caller that has its own request locked, and takes any message while it is idle |
| CallsWaiting.CallAlone | src/remote_server.cpp:200-262 | whenever nobody holds what it needs, though a public call may be waiting, a call can run to its end, with any answer or with a time-out; it returns just that and leaves map, locks and all other calls as they were |
| Delivery.ReturnedHeard | src/nymph_socket_listener.cpp:142-184 | in every interleaving, a call that has returned an answer has returned a body that arrived and replies to its own message ID |
| Delivery.CallIdsApart | src/nymph_utilities.cpp:47-53 | two calls of a session with the same message ID are the same call |
| Delivery.AnswersDelivered | src/remote_server.cpp:200-262 | the calls of such a session made by any callers in any interleaving, and the bodies handled in any order: a caller that returns has got the answer to its own call, with what the method of the called name computed from the values of that call, if and only if it was signalled, which is if and only if the answer was stored before it timed out; else it has got nothing |
| SocketListener.SocketListener.AddMessage | src/nymph_socket_listener.cpp:227-233 | changes the map as the step of the caller says |
| SocketListener.SocketListener.RemoveMessage | src/nymph_socket_listener.cpp:237-247 | changes the map as the step of the caller says |
| SocketListener.SocketListener.HandleMessage | src/nymph_socket_listener.cpp:156-184 | stores and signals in the one matching request and in no other |
| SocketListener.HandlingSteps | src/nymph_socket_listener.cpp:156-184 | handling a message without interruption is the run of its five steps |
| Pool.RunShape | src/dispatcher.cpp:66-128 | in every interleaving there are as many workers as threads, never more than the pool size, and the idle queue holds exactly the waiting workers without a request, each once, and the one just given one at the front |
| Pool.ExactlyOnce | src/dispatcher.cpp:66-128 | in every interleaving each submitted request is in exactly one place, so none is lost or processed twice |
| Pool.SlotKept | src/worker.h:35 | a worker's request is never replaced before it is processed |
| Pool.RunningKept | src/worker.cpp:41-46 | a request being processed stays with its worker until it is done |
| Pool.QueueOrder | src/dispatcher.cpp:97-116 | requests leave the queue in the order in which they entered it |
| PoolOrder.RequestOrder | src/dispatcher.cpp:97-116 | in every run the requests queued by callers are those taken by workers and those left in the queue, in one order |
| PoolOrder.IdleOrder | src/dispatcher.cpp:70-79 | in every run the workers that queued up are those that were taken off with a request and those still idle, in one order |
| PoolOrder.GivenTo | src/dispatcher.cpp:69-116 | a request goes to the worker at the front of the idle queue, to a new one, or from the front of the requests to the worker that asks; no other worker is touched, and it is the one that is then processed |
| PoolOrder.RecordTold | src/dispatcher.cpp:66-128 | what has been submitted and processed is what the steps of the run say |
| PoolOrder.WorkerHeldIff | src/worker.cpp:39-60 | a worker can go on unless it waits without a request, or has to queue up while workersMutex is held |
| PoolOrder.CallerHeldIff | src/dispatcher.cpp:69-99 | a caller can go on unless it is ahead of workersMutex and that is held, and which of the three branches it takes |
| PoolProgress.RunsEnd | src/worker.cpp:39-60 | a run has at most eleven steps for each request |
| PoolProgress.ComesToRest | src/worker.cpp:39-60 | from every state that can be reached, the pool can come to rest without another request |
| PoolProgress.AtRestIff | src/worker.cpp:49-58 | the pool cannot go on by itself if and only if no caller is in addRequest and every worker waits |
| PoolProgress.RestDone | src/dispatcher.cpp:66-128 | at rest every request has been processed or is in the queue |
| PoolProgress.BacklogStep | src/dispatcher.cpp:95-124 | a step first leaves a request and an idle worker side by side exactly if it is a decision that was overtaken between the locks |
| PoolProgress.ConservingIff | src/dispatcher.cpp:95-124 | work is conserved throughout a run if and only if no such decision is in it |
| PoolProgress.AllDone | src/dispatcher.cpp:66-128 | a run without one that has come to rest has processed every request |
| PoolProgress.LeftBehindReachable | src/dispatcher.cpp:95-124 | for a pool of any size, a run that comes to rest with a request in the queue and all workers waiting |
| PoolDecisions.StaleIff | src/dispatcher.cpp:69-99 | a decision is overtaken exactly if, since what it rests on was found, more requests were queued than taken, or more workers queued up than were given requests |
| PoolDecisions.ConservingIffNoneOvertaken | src/dispatcher.cpp:66-128 | work is conserved throughout a run if and only if the order of its critical sections shows no such decision |
| Dispatcher.CallSteps | src/dispatcher.cpp:66-128 | a whole addRequest or addWorker is a run of steps that keeps work conserved |
| Dispatcher.WorkConserved | src/dispatcher.cpp:66-128 | with whole calls, a non-empty queue means no idle worker and a full pool, and requests leave it in order |
| Dispatcher.CallsAreRuns | src/dispatcher.cpp:66-128 | what is proved of interleavings holds of whole calls |
| Dispatcher.Queues.AddRequest | src/dispatcher.cpp:66-102 | moves the two queues, the workers and the thread count to the state that the steps lead to |
| Dispatcher.Queues.AddWorker | src/dispatcher.cpp:106-128 | the same, and tells the worker to wait exactly if the queue was empty |
| Dispatcher.AddRequestSteps | src/dispatcher.cpp:66-102 | the new state of addRequest is where its steps lead |
| Dispatcher.AddWorkerSteps | src/dispatcher.cpp:106-128 | the new state of addWorker is where its steps lead |
| Ownership.DiscardDeletesAll | src/nymph_message.cpp:456-463 | discard deletes the buffer first, then every value with each part of it at any depth, a part's own parts before its vector or map and that before itself, and the message last, in spite of one decrement for each string, array and struct on the way |
| Ownership.EverythingOnce | src/nymph_types.cpp:137-181 | if no object stands in two places, the blocks deleted then are all different |
| Ownership.FreesInOrder | src/nymph_types.cpp:137-181 | a destructor deletes every part of a value, behind the parts of that part and its vector or map |
| Ownership.IdsFreed | src/nymph_types.cpp:137-181 | and so every object in the tree |
| Ownership.ReferencesAre | src/nymph_types.cpp:737-757 | a parsed message has as many references as strings, arrays and structs among its values |
| Ownership.ParsedDiscard | src/nymph_message.cpp:456-463 | discarding a message that has been parsed deletes the buffer, the message, its values and its response, whatever hangs on an object that is deleted, and nothing twice |
| Ownership.DirectDeleteIff | src/nymph_message.cpp:212-226 | a direct delete does the same if and only if no string, array or struct among the values is linked with the message; else its destructor is begun twice |
| Ownership.TextDeletedTwice | src/nymph_message.cpp:212-226 | for a message with one text a direct delete begins the destructor twice, and discard deletes text, buffer and message |
| Ownership.TakenResponse | src/nymph_message.h:79 | deleting a response that was taken deletes its message and buffer once if it is a string, array or struct, and else leaves them |
| Ownership.CountedMessage.constructor | src/nymph_types.cpp:737-757 | linking the parsed values counts one reference for each string, array and struct |
| Ownership.CountedMessage.GetResponse | src/nymph_message.h:79 | returns the response and keeps it only when told to take it |
| Ownership.CountedMessage.CountDown | src/nymph_message.cpp:442-452 | counts down as the function says, and deletes the message with the last reference |
| Ownership.CountedMessage.DeleteThis | src/nymph_message.cpp:212-226 | deletes in the order that the function says |
| Ownership.CountedMessage.DiscardThis | src/nymph_message.cpp:456-463 | marks the message and deletes it |

## Left out

- Exception messages: writer (src/nymph_message.cpp:351-360) and reader (src/nymph_message.cpp:138-154) use different layouts; the flag is kept, the bodies are not modelled.
- Null and Any values inside a message: serialize writes nothing for them (src/nymph_types.cpp:553-555).
- Malformed octets: where the source would read past the buffer the parsing functions say so and the methods require that this does not happen.
- Strings of 2^32 octets and more: `strLength` has 32 bits; and buffers of 2^31 octets and more: the parser's index is an `int`.
- NymphTypes.NymphType.ParseValue: `length` starts at 0 in a new object; the source leaves it undefined (src/nymph_types.h:105) and adds to it for arrays and structs.
- NymphMessages.NymphMessage.Serialize: a message is serialised once, since `buffer_length` then changes its meaning (src/nymph_message.cpp:319); a reply that has been given values smaller than its result (`extra` below 0) is not serialised, since its buffer would be too short.
- NymphMethods.Methods.RegisterMethod: a method is registered under its own name, and IDs stay below 2^32.
- NymphMethods.Methods.RemoveMethod: removing an absent name reads the end of the map (src/remote_client.cpp:231-232) and is excluded.
- Registry: a pointer in the ID map is the entry it leads to; what it leads to once that entry is erased is not modelled (`Dispatch.Lookup` then says Dangling).
- Rpc.ServeIff: of a message with an empty struct key it does not say which values the method gets; `Rpc.AnswersAreTyped` holds of any octets.
- Rpc: handlers are functions of name and values that answer with getReplyMessage and setResultValue; a missing response where Null is declared is dereferenced by the source (src/nymph_method.cpp:115) and not modelled.
- Framing: sockets, polling and time; a disconnect within a body is reported, not what the source then does with the deleted buffer (src/nymph_session.cpp:123-128).
- Calls: failed sends, a lost connection and the teardown of the listener; the callbacks that a message may be routed to; calls that end before a message is sent; the conversion of 64-bit IDs.
- Calls: one connection; the routing by handle among several (src/nymph_listener.cpp:132-168) is left to its lock.
- Calls: callMethod is given as the steps of a caller, not as a method, since other threads come in between; likewise Worker::run in `Pool`.
- Calls: a time-out may happen at any moment of a wait; a signal reaches only a caller that waits.
- Pool: threads, conditions and their time-outs; `stop`; a request object is submitted once.
- Dispatcher: the methods describe a call that no other interrupts; the interleavings are in `Pool`.
- Ownership: nested values are not linked with the message, as the parser builds them; uses of a message after it was deleted.
- callMethodId, the client's removeMethod, registration and calling of callbacks by name, logging, big-endian hosts.
