# Verified models of the wb-mqtt drivers

A Dafny model of the algorithms behind a set of MQTT drivers, with proofs of what
they guarantee over whole runs. `dafny verify dfyconfig.toml` checks everything.

What is modelled, and in which files:

- **Modbus write-back cache.** `HandlerProtocol` is the register handler under two
  threads, one event per access to shared state. `ModbusClient` has the handlers
  and the polling client as classes over a bus whose slave and errors are moves of
  the outside world; `ModbusCycle` says what a cycle achieves. `ModbusRegisters`
  has the number formats.
- **Modbus port.** `PortIndex` (the two lookup maps), `PortModel` (messages and
  publishing as functions), `ModbusPort` (the class, proved against them),
  `PortAgreement` (topics agree with the cache in every run), `PortReports` (what is read
  and reported over whole runs, and on_value channels), `PortRace` (publishing by two
  threads), `NumberText`, `Mqtt`.
- **Codecs.** `SmartbusTable`, `Words`, `Polynomials`, `SmartbusCrc` (the checksum as
  a polynomial remainder, and framing); `UnielBus` and `UnielContext` (the
  resynchronising reader and the address translation); `Strings` and `NinjaGuid`
  (splitting, escaping, GUIDs).
- **Sampling.** `AdcWindow` and `AdcMux` (ring buffers, shared multiplexer, current
  source); `PulseCounter` (debouncing, edges, intervals).
- **Stores.** `LogRotation` (renamed log files), `OnewireCleanup` (retained controls of
  absent thermometers). `Common` holds an option type and slices.

Where a component works in place it is a class, and each method's postcondition
gives the new state as a function of the old one; the theorems are about these
functions and about runs built from them. For the central operations a further clause,
and a lemma about the function, say in plain terms (bytes, levels, times, topics, sizes)
what one call does, as in `PollDoes`, `Announces`, `PublishDoes` or `ReadDoes`.

Results that differ from what one would expect of the code:

- A failed write loses the set for good, because the handler clears `dirty` first
  (`HandlerProtocol.FailedWriteDropsTheSet`); hence `QuiescentSlave` is an
  if-and-only-if with the success of the last attempt.
- A GUID is parsed back exactly when the block id neither contains "---" nor ends
  in a dash, and on platforms with signed `char` only for bytes 0 to 127 and 255.
- The checksum is packed in host byte order, so frames are divisible by the
  generator only on little-endian hosts, or when both checksum bytes are equal.
- The dead time of the pulse counter does not start with the swallowed first call, so
  its bounce counts as a pulse. Pulses are counted exactly if and only if the events
  between that call and the first true pulse show only ends of pulses
  (`PulseCounter.CountIsExact`).
- Publishing is outside the mutex, so a topic can keep an old value for good when one
  thread overtakes the other (`PortRace.OvertakenTopicIsStale`); `TopicIsCurrentIff`
  says when.
- The code accepts Uniel addresses 0x01xxWWRR with any xx, the documentation
  (README.md:461-470) only 0x0100WWRR; the model follows the code. With different
  WW and RR, reading back does not return what was written.
- Splitting on a character drops an empty last piece, so a payload "1;2;" has two
  items and a topic with a slash at its end is accepted; the model does the same.

## Model

| member | source | states |
|---|---|---|
| `Strings.FindIsLeftmost` | common/utils.cpp:40 | A substring search returns an occurrence with none before it; without a result there is no occurrence at all. |
| `Strings.StringSplit` | common/utils.cpp:30-45 | The splitting loop terminates for every non-empty delimiter and cuts the text at each leftmost non-overlapping occurrence. |
| `Strings.JoinSplit` | common/utils.cpp:30-45 | Joining the tokens with the delimiter gives the text back. |
| `Strings.SplitTokensAreFree` | common/utils.cpp:30-45 | No token contains the delimiter. |
| `Strings.SplitJoinIff` | common/utils.cpp:30-45 | Splitting a joined list gives the list back if and only if no delimiter starts inside a token. |
| `Strings.StringReplace` | common/utils.cpp:47-55 | Replacement by editing in place equals joining the split text with the replacement, also when the replacement contains the search text. |
| `Strings.StringSplitChar` | common/utils.cpp:21-29 | The getline loop yields the pieces between delimiters, except an empty last one. |
| `Strings.SplitLinesIsSplit` | common/utils.cpp:21-45 | The two splitting functions agree except for an empty last token. |
| `NinjaGuid.SelectorEscape` | wb-homa-ninja-bridge/cloud_connection.cpp:112-131 | The loop leaves letters, digits and underscores alone and turns every other byte into a dash and two characters. |
| `NinjaGuid.SelectorUnescape` | wb-homa-ninja-bridge/cloud_connection.cpp:133-156 | The loop replaces each dash that strtoul can decode, and keeps every other character, also at the end of the text. |
| `NinjaGuid.EscapedBytewise` | wb-homa-ninja-bridge/cloud_connection.cpp:119-128 | Escaping goes byte by byte: the letters, digits and the underscore, by their codes, stay; any other byte is a dash and its two lower-case hexadecimal digits, or "-ff" for a negative char. |
| `NinjaGuid.UnescapedDash` | wb-homa-ninja-bridge/cloud_connection.cpp:141-151 | A dash with two characters after it is replaced, all three by one byte, exactly if these are two digits in either case, a digit after a space or a sign, a digit before a NUL, or a NUL; otherwise the dash stays. |
| `NinjaGuid.UnescapedRest` | wb-homa-ninja-bridge/cloud_connection.cpp:140-151 | Every other character stays; a dash at the very end reads as NUL, and one before a single last digit as that digit. |
| `NinjaGuid.UnescapeEscapeIff` | wb-homa-ninja-bridge/cloud_connection.cpp:112-156 | Unescaping undoes escaping exactly on strings whose bytes all survive: all bytes where plain char is unsigned, otherwise 0 to 127 and 255. |
| `NinjaGuid.DashesAreFollowed` | wb-homa-ninja-bridge/cloud_connection.cpp:122-125 | In escaped text a dash has two characters after it, the first of them not a dash. |
| `NinjaGuid.EscapedEndsCleanly` | wb-homa-ninja-bridge/cloud_connection.cpp:112-131 | Escaped text contains no separator, and no separator starts inside it when one follows. |
| `NinjaGuid.ParseGUID` | wb-homa-ninja-bridge/cloud_connection.cpp:167-174 | A GUID is accepted exactly when it splits into three tokens of which the first is the block id; the other two are unescaped. |
| `NinjaGuid.ParsedIff` | wb-homa-ninja-bridge/cloud_connection.cpp:167-174 | For any text: it is parsed to two ids if and only if it is the block id and two further parts joined by separators, no part containing one and the first two not ending with a dash, and the ids are those parts unescaped. |
| `NinjaGuid.OtherBlockIsUndefined` | wb-homa-ninja-bridge/cloud_connection.cpp:170-171 | A GUID that was made for another good block id is not parsed. |
| `NinjaGuid.GuidTokens` | wb-homa-ninja-bridge/cloud_connection.cpp:159-173 | A generated GUID splits into the block id and the two escaped names if the block id is good, and is not recognised otherwise. |
| `NinjaGuid.GoodBlockIdIff` | common/utils.cpp:30-45 | A block id comes back as the first token exactly when it neither contains the separator nor ends in a dash. |
| `NinjaGuid.ParseGetGUIDIff` | wb-homa-ninja-bridge/cloud_connection.cpp:159-174 | Parsing a generated GUID returns the two ids, for all ids, if and only if the block id is good and both ids survive escaping. |
| `NinjaGuid.GuidIsInjective` | wb-homa-ninja-bridge/cloud_connection.cpp:159-164 | Different pairs of ids have different GUIDs. |
| `ModbusRegisters.RepresentativeIsUnique` | wb-homa-modbus/modbus_client.cpp:228-256 | Two values in a format's range that are congruent modulo 2^8 or 2^16 are equal. |
| `ModbusRegisters.ToSlaveIsResidue` | wb-homa-modbus/modbus_client.cpp:244-256 | What goes to the slave is the residue of the integer in 8 or 16 bits, whichever the format has. |
| `ModbusRegisters.FromSlaveIsRepresentative` | wb-homa-modbus/modbus_client.cpp:228-242 | What is made of a word is the congruent value in the format's range. |
| `ModbusRegisters.SettledIsRepresentative` | wb-homa-modbus/modbus_client.cpp:228-256 | Converting any integer to the slave and back gives the one congruent value in the format's range, which is the integer itself exactly when it is in range. |
| `HandlerProtocol.StepKeepsInv` | wb-homa-modbus/modbus_client.cpp:154-213 | Every access to shared state by either thread keeps the invariant that the last set is in the cache, in the write under way, or in the latest attempted write. |
| `HandlerProtocol.NoSetIsLost` | wb-homa-modbus/modbus_client.cpp:154-213 | The invariant holds after every run, in any interleaving. |
| `HandlerProtocol.LoopNeverOverwritesAnOwedSet` | wb-homa-modbus/modbus_client.cpp:154-201 | While a set still owes the slave a write, no step of the bus loop changes the cached value. |
| `HandlerProtocol.UnpolledCachesLastSet` | wb-homa-modbus/modbus_client.cpp:156-157 | A register that is not polled is never read, and caches the last set, or 0 before the first, in every run. |
| `HandlerProtocol.PendingSetIsWrittenFirst` | wb-homa-modbus/modbus_client.cpp:154-201 | In every interleaving, once a set is pending between two calls of the loop, no poll begins before a write has been attempted. |
| `HandlerProtocol.WritesFollowSets` | wb-homa-modbus/modbus_client.cpp:185-213 | In every run the attempted writes carry sets in the order in which they were made. |
| `HandlerProtocol.SlaveTracksWrites` | wb-homa-modbus/modbus_client.cpp:185-198 | The slave holds the data of the last successful write. |
| `HandlerProtocol.QuiescentSlave` | wb-homa-modbus/modbus_client.cpp:185-201 | Once both threads are idle and nothing is dirty, the latest attempt carried the last set, and the slave holds it if and only if that attempt succeeded or the slave held it before. |
| `HandlerProtocol.FlushAttemptsPendingSet` | wb-homa-modbus/modbus_client.cpp:185-201 | An undisturbed Flush of a pending set makes exactly one write attempt, with the set converted. |
| `HandlerProtocol.PollAdoptsReading` | wb-homa-modbus/modbus_client.cpp:154-183 | An undisturbed Poll of an idle polled register takes over the reading. |
| `HandlerProtocol.FailedWriteDropsTheSet` | wb-homa-modbus/modbus_client.cpp:189-197 | After a failed write and the next poll the slave is unchanged, the cache shows what the slave holds, and nothing is pending: the set is not retried. |
| `ModbusClient.RegisterHandler.SetRawValue` | wb-homa-modbus/modbus_client.cpp:208-213 | The value is stored and marked dirty; the read flag is kept. |
| `ModbusClient.RegisterHandler.Read` | wb-homa-modbus/modbus_client.cpp:264-320 | Each kind of register reads its own table of the selected slave; coils and inputs are one bit, registers are converted. |
| `ModbusClient.RegisterHandler.Write` | wb-homa-modbus/modbus_client.cpp:149-152 | Coils and holding registers reach the bus; the read-only kinds refuse without a bus operation. |
| `ModbusClient.RegisterHandler.Poll` | wb-homa-modbus/modbus_client.cpp:154-183 | Nothing happens to an unpolled or dirty register. Otherwise a failed read keeps the cell and reports nothing; an answered one marks the register as read, caches the value of its kind and format, and is reported exactly if it differs or is the first. |
| `ModbusClient.PolledDoes` | wb-homa-modbus/modbus_client.cpp:154-183 | The same of the function that the theorems about runs use, on any cell and bus. |
| `ModbusClient.DecodedReads` | wb-homa-modbus/modbus_client.cpp:228-320 | Coils and discrete inputs are the lowest bit; holding and input registers are the congruent value in the format's range. |
| `ModbusClient.RegisterHandler.Flush` | wb-homa-modbus/modbus_client.cpp:185-201 | A flush leaves the cell clean and otherwise unchanged. Only a pending set of a coil or holding register reaches the bus, as one write of its residue, and it is in the slave unless the bus fails. |
| `ModbusClient.FlushedDoes` | wb-homa-modbus/modbus_client.cpp:185-201 | The same of the function that the theorems about runs use, on any cell and bus. |
| `ModbusClient.Client.AddRegister` | wb-homa-modbus/modbus_client.cpp:338-345 | A register is added at its place in the map order unless the client is active or the register is defined already. |
| `ModbusClient.InsertedIsSorted` | wb-homa-modbus/modbus_client.h:107-117 | Insertion keeps the handlers strictly in register order. |
| `ModbusClient.OrderIsLexicographic` | wb-homa-modbus/modbus_client.h:107-117 | That order is total and transitive: by slave, then coils, discrete inputs, holding and input registers, then by address. |
| `ModbusClient.Client.Connect` | wb-homa-modbus/modbus_client.cpp:347-355 | Connecting an inactive client needs at least one register and a reachable bus. |
| `ModbusClient.Client.SetRawValue` | wb-homa-modbus/modbus_client.cpp:388-391 | Exactly the named register is set; an unknown register is an error without effect. |
| `ModbusClient.Client.FlushAll` | wb-homa-modbus/modbus_client.cpp:373-374 | The inner loop flushes every handler once, in register order. |
| `ModbusClient.Client.Cycle` | wb-homa-modbus/modbus_client.cpp:363-379 | A cycle is the run that flushes everything before each poll; the reported registers are those whose poll changed or was the first. |
| `ModbusCycle.CyclePollsInOrder` | wb-homa-modbus/modbus_client.cpp:363-379 | A cycle polls every register exactly once, in register order. |
| `ModbusCycle.EveryPollFollowsAllFlushes` | wb-homa-modbus/modbus_client.cpp:371-377 | Each poll of a cycle comes right after a flush of every register, in register order. |
| `ModbusCycle.StepReads` | wb-homa-modbus/modbus_client.cpp:154-183 | Over any bus, a handler call marks a register as read if and only if it is a poll of that register that the bus answers. |
| `ModbusCycle.InputsAreNeverWritten` | wb-homa-modbus/modbus_client.cpp:149-152 | Over any run on any bus, no write to a discrete input or input register is attempted. |
| `ModbusCycle.FlushesWriteWhatIsOwed` | wb-homa-modbus/modbus_client.cpp:185-201 | On any bus, flushing attempts every pending write exactly once, in register order. |
| `ModbusCycle.CycleWritesEachSetOnce` | wb-homa-modbus/modbus_client.cpp:363-379 | On any bus, a cycle leaves nothing dirty and attempts exactly the pending sets of writable registers, once each, in order. |
| `ModbusCycle.CycleSettles` | wb-homa-modbus/modbus_client.cpp:363-379 | On a bus without errors whose slave changes only by writes, after a cycle the slave holds what was set and otherwise what it held, and every polled cache is the slave's word converted. |
| `ModbusCycle.SetIsReadBack` | wb-homa-modbus/modbus_client.cpp:363-379 | After a cycle a set to a polled writable register is in the slave and has been read back. |
| `ModbusCycle.SetSettles` | wb-homa-modbus/modbus_client.cpp:185-256 | A set of any integer to a polled holding register settles, in slave and cache, at its representative in the format's range, which is the integer itself exactly when it is in range. |
| `ModbusCycle.CoilSetSettles` | wb-homa-modbus/modbus_client.cpp:258-273 | A coil settles at 1 exactly when the integer set is nonzero modulo the format's modulus. |
| `ModbusCycle.FlushIsProtocolRun` | wb-homa-modbus/modbus_client.cpp:185-201 | The sequential Flush of a holding register is a run of the two-thread protocol with the same cell and the same write. |
| `ModbusCycle.PollIsProtocolRun` | wb-homa-modbus/modbus_client.cpp:154-183 | The sequential Poll is a run of the two-thread protocol that leaves the same cell. |
| `NumberText.StoiOfText` | wb-homa-modbus/modbus_client.cpp:203-226 | Parsing the text of any C++ int gives the int back. |
| `NumberText.StoiOfNumber` | wb-homa-modbus/modbus_client.cpp:220-226 | Blanks, at most one sign and one or more digits parse to their decimal value, whatever follows the last digit, if and only if it fits an int. |
| `NumberText.StoiOfOther` | wb-homa-modbus/modbus_client.cpp:220-226 | A text with no digit after its blanks and its sign does not parse. |
| `NumberText.TextIsDecimal` | wb-homa-modbus/modbus_client.cpp:203-206 | The text of an integer is its decimal one: a minus exactly if it is negative, no needless zero. |
| `PortIndex.NamedIsUnique` | wb-homa-modbus/modbus_port.cpp:19 | A key "id/name" determines both parts when the parts looked for contain no slash. |
| `PortIndex.IndexAgreesWithSearch` | wb-homa-modbus/modbus_port.cpp:15-23 | For names without slashes, the name index finds what a scan of the configuration finds last. |
| `PortIndex.BuiltIsConsistent` | wb-homa-modbus/modbus_port.cpp:15-23 | After construction every register of a configured channel is mapped to that channel, only configured channels are mapped, and every name stands for a channel with registers, all its own. |
| `PortIndex.BuiltIffDistinct` | wb-homa-modbus/modbus_port.cpp:15-23 | Construction succeeds if and only if no register is used twice in the whole configuration. |
| `PortModel.CycleIsRun` | wb-homa-modbus/modbus_client.cpp:363-379 | A cycle of the port is a run of flushes and polls with their callbacks. |
| `ModbusPort.TModbusPort.constructor` | wb-homa-modbus/modbus_port.cpp:7-26 | The nested loops fill both maps and the client with the index of the configuration, or refuse it. |
| `ModbusPort.TModbusPort.HandleMessage` | wb-homa-modbus/modbus_port.cpp:56-99 | Whether a message is taken, which registers it sets and what it publishes; an item that is no integer ends the program. |
| `ModbusPort.TModbusPort.OnModbusValueChange` | wb-homa-modbus/modbus_port.cpp:107-151 | An on_value channel is always published, as "1" if the register holds the on value and as "0" otherwise; another channel is published with all its values exactly if all its registers have been read; no other topic changes. |
| `PortAgreement.NotifiedAnnounces` | wb-homa-modbus/modbus_port.cpp:107-151 | The same of the function that the theorems about runs use. |
| `ModbusPort.TModbusPort.Cycle` | wb-homa-modbus/modbus_client.cpp:363-379 | The port's cycle refreshes the registers and the topics exactly as the run of its steps does, and fails without effect when the client cannot connect. |
| `PortAgreement.RouteIsSearch` | wb-homa-modbus/modbus_port.cpp:56-78 | A message is taken exactly when its topic names a configured device and channel, and then by the last such channel. |
| `PortAgreement.SetTopicReachesChannel` | wb-homa-modbus/modbus_port.cpp:47-105 | A message on the topic a channel publishes to, with "/on" added, reaches that channel if it is the last of its device with that name. |
| `PortAgreement.MessageSetsExactly` | wb-homa-modbus/modbus_port.cpp:80-98 | A message sets exactly the registers of that channel to the integers it lists and publishes itself, or changes nothing when the number of items differs. |
| `PortAgreement.MessageTerminatesIff` | wb-homa-modbus/modbus_port.cpp:56-99 | A message is left to others if and only if it reaches no channel, and ends the program if and only if it reaches one with the right number of items of which one is no integer. |
| `PortAgreement.JoinedTextsShow` | wb-homa-modbus/modbus_port.cpp:126-136 | The published payload splits on ';' and parses back to exactly the cached values. |
| `PortAgreement.PublishedChannelIsWhole` | wb-homa-modbus/modbus_port.cpp:120-150 | A handler call publishes only on its own channel's topic, and for a channel without on_value only when every register has been read, and then all current values; an on_value channel shows 1 exactly when the register holds that value. |
| `PortAgreement.TopicTracksCache` | wb-homa-modbus/modbus_port.cpp:56-151 | On every run of messages, flushes and polls, over any bus: once all registers of a channel without on_value and with its own topic have been read, the retained payload lists exactly the cached values. |
| `PortReports.ReadIffAnswered` | wb-homa-modbus/modbus_client.cpp:154-183 | From start-up, over any run of messages, flushes and polls on any bus: a register counts as read if and only if one of its polls was answered. |
| `PortReports.ReportShowsSwitch` | wb-homa-modbus/modbus_port.cpp:120-150 | An answered poll of an on_value channel's register whose value is new or the first puts "1" or "0" on the topic, whether or not that is what it held. |
| `PortReports.SwitchShowsLastReport` | wb-homa-modbus/modbus_port.cpp:107-151 | After any run and a reported poll: as long as no message reaches a one-register on_value channel with its own topic, the topic shows "1" exactly if the register holds the on value, over any further run. |
| `PortReports.UnsetSwitchTracksCache` | wb-homa-modbus/modbus_port.cpp:107-151 | From start-up, such a channel that no message reaches shows its register from the first answered poll on. |
| `PortRace.SnapshotsAreTaken` | wb-homa-modbus/modbus_port.cpp:90-150 | In every interleaving of message handling and callback, the topic shows the cache as it was when the thread that published last had taken its value. |
| `PortRace.TopicIsCurrentIff` | wb-homa-modbus/modbus_port.cpp:90-150 | In every interleaving, the topic shows the cache if and only if that was after the last change of the cache. |
| `PortRace.SerialHandlingsSettle` | wb-homa-modbus/modbus_port.cpp:90-150 | Handled one at a time, changes always leave the topic showing the cache. |
| `PortRace.OvertakenTopicIsStale` | wb-homa-modbus/modbus_port.cpp:90-150 | Two runs, one for each thread being overtaken, after which nothing is under way and the topic shows an old value. |
| `SmartbusTable.TableIsDivision` | wb-homa-smartbus/smartbus.py:45-78 | Each of the 256 table entries is eight steps of bitwise division of its index. |
| `SmartbusCrc.Crc16Buf` | wb-homa-smartbus/smartbus.py:81-89 | The loop folds the table step over the bytes and swaps the two result bytes. |
| `SmartbusCrc.CrcIsRemainder` | wb-homa-smartbus/smartbus.py:45-89 | For every byte string the checksum is the remainder of x^16 times the message modulo x^16 + x^12 + x^5 + 1. |
| `Polynomials.RemainderIsUnique` | wb-homa-smartbus/smartbus.py:45-78 | Two remainders of degree below 16 in the same class are equal, so the checksum is determined by division. |
| `SmartbusCrc.SameCrcIff` | wb-homa-smartbus/smartbus.py:81-89 | Two byte strings have the same checksum if and only if the generator divides their difference. |
| `SmartbusCrc.MessageIsInjective` | wb-homa-smartbus/smartbus.py:81-84 | Byte strings of one length are different polynomials. |
| `SmartbusCrc.BurstIsDetected` | wb-homa-smartbus/smartbus.py:81-89 | Strings of equal length that differ only within 16 consecutive bits have different checksums. |
| `SmartbusCrc.TwoByteErrorIsDetected` | wb-homa-smartbus/smartbus.py:81-89 | Strings of equal length that differ only in two consecutive bytes have different checksums. |
| `SmartbusCrc.MakePacket` | wb-homa-smartbus/smartbus.py:92-99 | The frame is AA AA, length, header, content and checksum; content over 244 bytes is an error. |
| `SmartbusCrc.HeaderAndContentRoundTrip` | wb-homa-smartbus/smartbus.py:94-97 | The bytes after the length, read in network byte order, are the six header fields, and the rest is the content. |
| `SmartbusCrc.CoveredIsInjective` | wb-homa-smartbus/smartbus.py:94-97 | Different headers or contents make different frames: in network byte order the bytes stand for the fields they were made of. |
| `SmartbusCrc.FrameRemainderIff` | wb-homa-smartbus/smartbus.py:92-99 | Everything after AA AA has remainder 0 if and only if the host is little-endian or the two checksum bytes are equal. |
| `SmartbusCrc.BigEndianFrameIsIndivisible` | wb-homa-smartbus/smartbus.py:98 | A frame with a zero header and no content is not divisible when a big-endian host packs the checksum. |
| `SmartbusCrc.FrameLength` | wb-homa-smartbus/smartbus.py:97-98 | The length byte equals the number of bytes after AA AA. |
| `LogRotation.Logger.constructor` | mqtt-logger/main.cpp:95-102 | Opening appends to the existing current log and creates a missing one; the limit is 1024 times the configured size. |
| `LogRotation.Logger.OnMessage` | mqtt-logger/main.cpp:119-148 | While the current log with its new line stays within the limit, the line is appended and no other file changes. Otherwise the current log is empty, ".1" is the former one with the line, and each numbered file up to the configured number is the one below it. |
| `LogRotation.CurrentIsWithinLimitIff` | mqtt-logger/main.cpp:129-148 | After at least one message, from any store, the current log is within the limit, unless the limit is negative. |
| `LogRotation.FilesAreSnug` | mqtt-logger/main.cpp:129-148 | Over any run from an empty store, the current log is within the limit, and every old log is past it with its last line but not without. |
| `LogRotation.RotationKeepsHistory` | mqtt-logger/main.cpp:131-144 | From any store, gaps included, a rotation drops the oldest file's lines exactly when the file below it exists, and keeps the order of all other lines. |
| `LogRotation.ShiftedFile` | mqtt-logger/main.cpp:132-139 | Where each numbered file ends up after the loop. |
| `LogRotation.LogExtendsHistory` | mqtt-logger/main.cpp:119-148 | After one more line the kept history is a suffix of the old one with the line added. |
| `LogRotation.HistoryIsSuffix` | mqtt-logger/main.cpp:119-148 | Over any run and from any store, the numbered files and the current one, in order, are a suffix of everything logged. |
| `LogRotation.KeepsAllOrEnough` | mqtt-logger/main.cpp:119-148 | From an empty store either nothing has been dropped, or all the old logs that are kept exist, each larger than the limit. |
| `UnielBus.Bus.WriteCommand` | wb-homa-modbus/uniel.cpp:89-102 | Sends the checksummed 8-byte frame; a closed or broken port sends nothing. |
| `UnielBus.Bus.ReadResponse` | wb-homa-modbus/uniel.cpp:131-159 | The retry loop terminates on every finite stream with the result, and the unread rest, of the reference parser. |
| `UnielBus.Bus.ReadRegister` | wb-homa-modbus/uniel.cpp:161-170 | For any device: a read sends one read frame and returns v, leaving `rest`, if and only if what arrives is noise, a valid frame of command 5 with v and the address asked for, and `rest`; a valid frame for another register is a wrong register, and other errors are those of rejected or cut frames. |
| `UnielBus.Bus.DoWriteRegister` | wb-homa-modbus/uniel.cpp:172-181 | For any device: a write sends one frame and succeeds if and only if what arrives is noise, then its echo; another address is a wrong register, another value a wrong value. |
| `UnielBus.ReadOutcomeDoes` | wb-homa-modbus/uniel.cpp:161-170 | The same of the function for a read that the theorems about contexts use, on any port. |
| `UnielBus.WriteOutcomeDoes` | wb-homa-modbus/uniel.cpp:172-181 | The same for a write. |
| `UnielBus.NoiseIsSkipped` | wb-homa-modbus/uniel.cpp:134-138 | Noise made of "not FF" and "FF, not FF" pieces changes nothing about how the rest is read. |
| `UnielBus.ResynchronisedRead` | wb-homa-modbus/uniel.cpp:131-159 | After any such noise a valid response frame is read whole and exactly, and nothing after it is consumed. |
| `UnielBus.AcceptedIff` | wb-homa-modbus/uniel.cpp:131-159 | A payload is returned if and only if noise and then a valid frame for the command with that payload arrived. |
| `UnielBus.RefusedIff` | wb-homa-modbus/uniel.cpp:131-159 | A response ends in an error if and only if noise and then a frame cut short (timeout) or a frame with a wrong checksum, command or module, tested in this order, arrived. |
| `UnielBus.CorruptFrameIsRejected` | wb-homa-modbus/uniel.cpp:139-146 | Changing any one byte after the header of an aligned valid frame is always rejected as a bad checksum. |
| `UnielBus.WriteWasEchoed` | wb-homa-modbus/uniel.cpp:172-181 | A successful write was answered by a valid frame with the address and value sent. |
| `UnielContext.Context.ReadCoils` | wb-homa-modbus/uniel_context.cpp:34-46 | Registers are read in a row and reduced to truth values; a transient error keeps the port open, any other closes it. |
| `UnielContext.Context.WriteCoil` | wb-homa-modbus/uniel_context.cpp:48-59 | Writes FF or 0 to the low byte of the address, with the same error handling. |
| `UnielContext.Context.ReadHoldingRegisters` | wb-homa-modbus/uniel_context.cpp:66-81 | Registers are read in a row through the low byte of each address. |
| `UnielContext.Context.WriteHoldingRegisters` | wb-homa-modbus/uniel_context.cpp:83-111 | One command per element, chosen by the address, until one fails. |
| `UnielContext.WriteFrameCarries` | wb-homa-modbus/uniel_context.cpp:89-99 | Decoded, the frame for address 0 to 255 is command 06 to that register, for 0x01xxWWRR command 0A to WW, with the value modulo 256. |
| `UnielContext.WriteOneDoes` | wb-homa-modbus/uniel_context.cpp:87-111 | Writing one register is command 6 to a plain address, command 10 to 0x01xxWWRR and an error without effect for any other; the caller sees what the bus reports. |
| `UnielContext.WritesCompose` | wb-homa-modbus/uniel_context.cpp:83-111 | Writing a list is writing its first part and then, unless that failed, the rest. |
| `UnielContext.ReadOneDoes` | wb-homa-modbus/uniel_context.cpp:66-81 | Reading one register is one read of the low byte of its address; the caller sees what the bus reports. |
| `UnielContext.ReadsCompose` | wb-homa-modbus/uniel_context.cpp:66-81 | Reading a row is reading its first part and then, unless that failed, the rest. |
| `UnielContext.WriteCoilDoes` | wb-homa-modbus/uniel_context.cpp:48-59 | Writing a coil, on any port: command 6 with FF or 0 to the low byte of the address after opening the port, or an error that leaves a broken port closed. |
| `UnielContext.CoilsAreTruths` | wb-homa-modbus/uniel_context.cpp:34-46 | Coils are the registers at the same addresses: 0 for 0 and 1 for anything else, with the same errors. |
| `UnielContext.AccessOpensPort` | wb-homa-modbus/uniel_context.cpp:34-111 | An access to a closed port opens it first, and fails without effect if that is impossible. |
| `UnielContext.WritesGoOutInOrder` | wb-homa-modbus/uniel_context.cpp:83-111 | For every list and any device, the frames sent are one per element in order; an unsupported address is rejected before its frame; success means all were sent. |
| `UnielContext.ReadsGoOutInOrder` | wb-homa-modbus/uniel_context.cpp:66-75 | For any device, the read commands sent are one per register, in order, each for the low byte of its address. |
| `UnielContext.WritesKeepPortOpen` | wb-homa-modbus/uniel_context.cpp:105-110 | On a working line every bus error of a write is transient and the port stays open. |
| `UnielContext.WriteLeavesPortOpenIff` | wb-homa-modbus/uniel_context.cpp:83-111 | A write leaves the port open if and only if the line works or no frame was to be sent; otherwise it fails for good and sends nothing. |
| `UnielContext.ReadsKeepPortOpen` | wb-homa-modbus/uniel_context.cpp:75-80 | The same for reads. |
| `UnielContext.ReadLeavesPortOpenIff` | wb-homa-modbus/uniel_context.cpp:66-81 | A read leaves the port open if and only if the line works or nothing was to be read; otherwise it fails for good and sends nothing. |
| `UnielContext.RegisterFileWrites` | wb-homa-modbus/uniel_context.cpp:83-104 | A slave that is a register file stores what is written and nothing else changes. |
| `UnielContext.CoilRoundTrip` | wb-homa-modbus/uniel_context.cpp:34-59 | A coil written and then read through a register-file slave returns its truth value. |
| `UnielContext.BlockRoundTrip` | wb-homa-modbus/uniel_context.cpp:66-111 | A block of any length written to plain registers and read back is the block, each value modulo 256. |
| `UnielContext.HoldingRoundTrip` | README.md:461-470 | A holding register written and read back gives the value modulo 256: always for 0 to 255, and for 0x01xxWWRR exactly when WW equals RR or RR held that value. |
| `PulseCounter.GpioCounter.GetValue` | wb-homa-gpio/sysfs_gpio.cpp:179-207 | A successful read is returned and cached; a failed one returns -1 and keeps the cache. |
| `PulseCounter.GpioCounter.IsDebouncing` | wb-homa-gpio/sysfs_gpio.cpp:245-255 | Interrupts up to 1000 us after the last counted pulse are bounces, none before the first. |
| `PulseCounter.GpioCounter.GetInterval` | wb-homa-gpio/sysfs_gpio.cpp:257-273 | Counts the pulse and measures its interval unless less than 200000 us have passed. |
| `PulseCounter.GpioCounter.GpioPublish` | wb-homa-gpio/sysfs_gpio_base_counter.cpp:66-90 | The first call is swallowed. Later ones cache a level that was read, drop a read 0 (rising) or 1 (falling) that differs from the cached level and whatever comes less than 200 ms after the latest pulse, and count and publish everything else, with its interval in whole microseconds. |
| `PulseCounter.GpioCounter.UpdateValue` | wb-homa-gpio/main.cpp:200-215 | The periodic sweep does nothing if the level cannot be read or is the cached one; otherwise it publishes, with the cached level put back first. |
| `PulseCounter.StepDoes` | wb-homa-gpio/main.cpp:200-264 | Every event on any counter, in terms of levels and nanoseconds: an interrupt up to 1000 us after the latest pulse only notes the bounce, a sweep without change does nothing, and all others publish as GpioPublish does. |
| `PulseCounter.GpioCounter.CatchInterrupts` | wb-homa-gpio/main.cpp:258-264 | The ready entries of this counter's descriptor are handled in order, each after the debounce test. |
| `PulseCounter.MineInOrder` | wb-homa-gpio/main.cpp:258-264 | These are all ready entries with the descriptor and no others, in the order they came in. |
| `PulseCounter.RunIsSpaced` | wb-homa-gpio/sysfs_gpio.cpp:245-273 | With a clock that does not go back, published pulses are at least 200000 us apart, numbered without gaps, and carry their interval in whole microseconds. |
| `PulseCounter.PulsesAreBounded` | wb-homa-gpio/sysfs_gpio_base_counter.cpp:66-93 | From start-up the count is at most 1 + (last - first) / 200000 us, and the intervals add up to the time from first to last pulse up to rounding. |
| `PulseCounter.StepFollowsEvents` | wb-homa-gpio/sysfs_gpio.cpp:245-273 | What the counter caches, handles and reports follows from the events: the level read last, the time of the latest pulse, and the event itself. |
| `PulseCounter.ReportsAreJudged` | wb-homa-gpio/sysfs_gpio_base_counter.cpp:66-93 | In every run, for all three edges, an event is reported if and only if it is noticed, comes at least 200 ms after the latest report, and does not read the line as it leaves the active level. |
| `PulseCounter.TruePulsesAreReported` | wb-homa-gpio/sysfs_gpio_base_counter.cpp:66-93 | Exactly the labelled events are counted whenever they mark pulses (line active, 200000 us after the pulse before, checked more than 1000 us after it, or seen by the sweep as a new level) and the others come sooner, show the end of a pulse, or go unnoticed; all this is said of the events alone. |
| `PulseCounter.BouncesAreNotCounted` | wb-homa-gpio/sysfs_gpio.cpp:245-273 | On a line whose pulses are 200000 us apart and whose other interrupts follow a pulse sooner, exactly the pulses are counted: the debounce test drops none of them and no bounce is counted. |
| `PulseCounter.NothingIsCountedIff` | wb-homa-gpio/sysfs_gpio_base_counter.cpp:66-83 | Before the first pulse nothing is counted if and only if every noticed event shows the end of a pulse: an inactive level that differs from the level read before it. |
| `PulseCounter.ReportedAsLabelledIff` | wb-homa-gpio/sysfs_gpio_base_counter.cpp:66-93 | Events before the first pulse followed by a stretch of labelled true pulses are counted exactly as labelled if and only if the former show only ends of pulses. |
| `PulseCounter.CountIsExact` | wb-homa-gpio/sysfs_gpio_base_counter.cpp:66-93 | Over a whole run after the swallowed call exactly the true pulses are counted, if and only if the events before the first of them show only ends of pulses; then the count is their number and the reports carry their times. |
| `PulseCounter.BounceOfSwallowedPulseIsCounted` | wb-homa-gpio/sysfs_gpio_base_counter.cpp:69-72 | A run that fails this condition: the bounce of the swallowed pulse is counted and the next true pulse is dropped. |
| `AdcWindow.OverwriteOldest` | wb-homa-adc/sysfs_adc.cpp:303-306 | Overwriting at the position and advancing it drops the oldest reading and appends the new one. |
| `AdcWindow.RoundedIsNearest` | wb-homa-adc/sysfs_adc.cpp:310 | The rounded mean is within half a unit of the exact one, ties away from zero. |
| `AdcWindow.MeanIsBetween` | wb-homa-adc/sysfs_adc.cpp:310 | The rounded mean lies between the smallest and the largest reading. |
| `AdcMux.TSysfsAdcMux.SetMuxABC` | wb-homa-adc/sysfs_adc.cpp:247-259 | The three lines are driven with the bits of the input, unless it is selected already. |
| `AdcMux.TSysfsAdcMux.GetRawValue` | wb-homa-adc/sysfs_adc.cpp:177-181 | The conversion is taken after the input has been selected. |
| `AdcMux.DrivenEncodes` | wb-homa-adc/sysfs_adc.cpp:254-256 | With distinct pins the driven lines, read as a binary number, are the last three bits of the input. |
| `AdcMux.DrivenEncodesIff` | wb-homa-adc/sysfs_adc.cpp:254-256 | The lines select each of the eight inputs if and only if the three pins are distinct. |
| `AdcMux.TSysfsAdcChannel.GetAverageValue` | wb-homa-adc/sysfs_adc.cpp:291-311 | The buffer rotated at the position is exactly the last readings in order, and the result is their mean rounded half away from zero. |
| `AdcMux.TSysfsAdcChannel.GetValue` | wb-homa-adc/sysfs_adc.cpp:349-371 | The order of discharging, selecting, switching the source on, averaging and switching it off. |
| `AdcMux.SourceOnIsExact` | wb-homa-adc/sysfs_adc.cpp:377-382 | Setting up the source enables it and puts current / 20 into its four-bit field; no other bit changes. |
| `AdcMux.SourceOffIsOff` | wb-homa-adc/sysfs_adc.cpp:384-387 | Switching off clears the enable bit and nothing else. |
| `AdcMux.DischargeComesFirst` | wb-homa-adc/sysfs_adc.cpp:291-371 | A measurement drives its discharge input, if it has one other than its own, and then its own, each unless it is selected already, and none of its conversions drives the lines again. |
| `AdcMux.DrivesNeverRepeat` | wb-homa-adc/sysfs_adc.cpp:247-259 | In whatever order channels are read, the lines are never driven twice in a row to the same input. |
| `AdcMux.MeasuredProperly` | wb-homa-adc/sysfs_adc.cpp:291-371 | One measurement takes the next conversions in order, as many as fill the buffer at first, all on the channel's input and with its source setting, leaves the source off if it used it, and keeps the rest of the register. |
| `AdcMux.SamplesAreProper` | wb-homa-adc/sysfs_adc.cpp:177-387 | In whatever order channels sharing the multiplexer are read, every sample of every channel was taken on that channel's input, resistance samples with the source at that channel's current, and the source is off in between. |
| `OnewireCleanup.UnorderedVectorDifference` | wb-homa-w1/main.cpp:86-101 | The nested loops keep exactly the elements not in the second list, in order. |
| `OnewireCleanup.DifferenceIff` | wb-homa-w1/main.cpp:86-101 | An element is in the difference if and only if it is in the first list and not in the second. |
| `OnewireCleanup.OnBusInOrder` | wb-homa-w1/main.cpp:114-121 | The thermometers found are the directory entries whose names start with "10-" or "28-", in order, each as often as it is listed. |
| `OnewireCleanup.OnBusIff` | wb-homa-w1/main.cpp:114-121 | A name is found if and only if it is listed and starts with "10-" or "28-". |
| `OnewireCleanup.TMQTTOnewireHandler.RescanBus` | wb-homa-w1/main.cpp:103-142 | New thermometers get a type, absent ones lose type and value, and the list becomes what the bus shows. |
| `OnewireCleanup.TMQTTOnewireHandler.OnConnect` | wb-homa-w1/main.cpp:65-83 | Publishes the device name and, after the preparation, rescans the bus. |
| `OnewireCleanup.TMQTTOnewireHandler.OnMessage` | wb-homa-w1/main.cpp:144-161 | The marker ends preparation; any other message adds its device unless known. |
| `OnewireCleanup.TMQTTOnewireHandler.UpdateChannelValues` | wb-homa-w1/main.cpp:173-182 | Every known thermometer that can be read is published. |
| `OnewireCleanup.RescanClearsExactly` | wb-homa-w1/main.cpp:124-141 | After a rescan a control has a retained value if and only if it had one and its device is on the bus. |
| `OnewireCleanup.RescanSetsTypes` | wb-homa-w1/main.cpp:133-141 | A rescan announces the type of every new thermometer, withdraws that of every absent one and leaves the others alone. |
| `OnewireCleanup.UpdateShowsReadings` | wb-homa-w1/main.cpp:173-182 | After an update the control of every known thermometer that can be read holds its reading. |
| `OnewireCleanup.UpdateKeepsOthers` | wb-homa-w1/main.cpp:173-182 | An update keeps every other topic: those of thermometers that cannot be read, and those of none. |
| `OnewireCleanup.ConnectDoes` | wb-homa-w1/main.cpp:65-83 | The first connection publishes the device name and changes nothing else; a later one also takes over what the bus shows, announces new thermometers and withdraws absent ones. |
| `OnewireCleanup.ChannelsStayDistinct` | wb-homa-w1/main.cpp:103-161 | In every run no thermometer is in the list twice, however often its control is announced. |
| `OnewireCleanup.StepKeepsInv` | wb-homa-w1/main.cpp:65-182 | Every event keeps the invariant that each retained control is known, or, before the marker has arrived, is queued ahead of it. |
| `OnewireCleanup.StaleControlsAreKnown` | wb-homa-w1/main.cpp:65-161 | On every run over a first-in first-out broker queue, with connections lost and renewed, from the marker on every control with a retained value is in the list. |
| `OnewireCleanup.RescanLeavesOnlyBusDevices` | wb-homa-w1/main.cpp:103-142 | On every run, after every rescan the controls with retained values are exactly those that had one and whose device is on the bus. |

## Left out

- Concurrency in the handler is modelled under sequential consistency; the C++ program
  reads `value` and `dirty` outside the mutex, which the language leaves undefined.
- PortAgreement.TopicTracksCache: stated for runs in which each message and each poll with
  its callback is one step; PortRace treats free interleaving. On_value channels are
  excluded (an incoming "1" stores raw 1, not the on value; PortReports treats them), and
  so are registers with a scale other than 1, whose text needs floating point.
- PortReports.SwitchShowsLastReport: until the next message to the channel; a message puts
  its own text on the topic (`PortAgreement.MessageSetsExactly`).
- PortRace.TopicIsCurrentIff: one register that has been read before; whether a reading can
  be adopted depends on the dirty mark only.
- PortAgreement.MessageSetsExactly: an item that is no integer ends the program, so no
  state is described after it.
- ModbusCycle.CycleSettles: stated for Modbus, where the four tables are separate; on a
  Uniel bus all tables are one register file and can alias.
- HandlerProtocol.QuiescentSlave: one 16-bit register; coils are covered by the
  sequential model only.
- PulseCounter.GpioCounter.CatchInterrupts: one channel; the outer loop repeats it for
  every channel. Total and power figures, the plain GPIO switch and the automatic choice
  of an edge are not modelled, nor is the wrap-around of the counter itself.
- AdcMux.TSysfsAdcChannel.GetAverageValue: sums and means are exact integers instead of
  doubles, and both configured window factors are at least 1.
- AdcMux.TSysfsAdcChannel.GetValue: the formulas for volts and ohms, the voltage check and
  delays are not modelled; both channel classes are one class with a kind.
- AdcMux.SamplesAreProper: one multiplexer whose lines nobody else drives; a failure to
  write a line ends the program. Inputs outside 0 to 7 are not claimed for.
- LogRotation.Logger.OnMessage: a line stands for what is written for a message; times,
  failed renames (which end the program) and the renewed subscription are left out.
- OnewireCleanup.StaleControlsAreKnown: assumes that the broker queues stored messages when
  the driver subscribes, in order, and that nobody else publishes retained messages once the
  marker is on its way.
- OnewireCleanup.TMQTTOnewireHandler.RescanBus: the directory listing is an input; opening
  failures show as an empty listing.
- OnewireCleanup.TMQTTOnewireHandler.OnMessage: only for topics of the two subscriptions; the
  source fails on shorter ones.
- UnielBus.Bus.ReadResponse: a finite input ends in a timeout; select, termios and the real
  waiting time are not modelled.
- SmartbusTable.TableIsDivision: the table is written as sixteen rows; numbers stay 16-bit,
  so the mask in crc16_floating is implicit.
- NinjaGuid.ParseGUID: the block id is a parameter; requests to the cloud are left out.
- Strings.StringSplit: an empty delimiter makes the source loop forever and is excluded.
- Configuration files, option parsing, logging, exit paths, and the mosquitto, libmodbus,
  curl and jsoncpp libraries are foreign code or plumbing.
- Writing setup registers at start (modbus_port.cpp:163-184), meta topics and
  subscriptions of the Modbus port are plain publishing.
- Integers are unbounded except where stated (register values, clock readings, C++ ints
  held by a register).
