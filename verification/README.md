# Verified model of rdbus

rdbus reads naval and industrial devices over Modbus RTU, NMEA 0183 and Wago EtherNet/IP, and hands
what it reads to clients over HTTP. This project models the five parts in which a configured meaning
has to survive a chain of transformations or a long run, and proves that it does:

- **Modbus read path** (`Registers`, `RequestPlanner`, `PlanOptimality`, `ModbusInterpreter`,
  `ByteOrders`, `ModbusCommunicator`, and the checks in `Config`). Registers are sorted, batched into
  block reads (Read Holding Registers and Read Input Registers, sections 6.3 and 6.4 of the MODBUS
  Application Protocol Specification V1.1b3), cut apart again, permuted, reversed and reinterpreted.
  The result is what reading every register on its own would give, and the batching is optimal.
- **HTTP sessions** (`Buffer`, `Sessioner`, `HttpServer`, `SessionRuns`). The locked sections of the
  server are atomic steps over a bounded, time-stamped buffer and a table of expiring sessions. Over
  whole runs every session receives each entry once and in order, as far as eviction allows.
- **Limits** (`Limits`). A pruned store per device and field agrees with the full history of readings
  seen through a sliding window.
- **NMEA** (`NmeaResponse`, `NmeaFraming`, `NmeaInterpreter`, `NmeaCommunicator`). The stream splitter,
  tokenizer and checksum are inverse to a printer, lose nothing and notice damage.
- **Wago** (`Wago`, and the offset layout in `Config`). Rescaling with truncating division inside real
  integer widths, and the two-pass layout of instance offsets.

Classes keep a ghost history of everything that was done to them, and their `Valid()` says that the
state is the one which that history leads to; the theorems about whole runs are lemmas about
histories. Clock readings, the answers of devices and the numeric conversions of the C++ library are
parameters. `Lists` holds the stable sort, the adjacent scan, concatenation and counting arguments.

Verify everything with `dafny verify dfyconfig.toml`.

## Where the code and its documentation disagree

The model follows the code.

- rdbus's README.md, lines 110-111, gives function code 0x03 to the analog input registers and 0x04 to the analog
  output registers. The planner reads output registers with Read Holding Registers (0x03) and input
  registers with Read Input Registers (0x04).
- `src/rdbus/config/modbus/Register.hpp:16-20` and line 126 of rdbus's README.md describe the byte order as a
  scatter (byte `i` goes to position `order[i]`); the interpreter gathers (byte `i` comes from
  position `order[i]`). The two agree exactly for involutions (`ByteOrders.GatherIsDocumentedScatter`),
  which every standard type is, but not for a wild order such as `BCDA`.
- The check that registers keep clear of each other (`src/rdbus/config/Config.cpp:196`) adds a `size_t`
  to a signed address. Around address zero it accepts overlaps and rejects disjoint registers
  (`Config.SpacingScanFailsAroundZero`); `Config.SpacingScanIsExact` gives the exact condition.
- The parser accepts wild orders whose letters repeat or reach past the register
  (`Registers.WildOrderIsUsable`). The read path is modelled for positions inside the register.
- Line 554 of rdbus's README.md says that limits skip string fields; the processor treats them like any other value.
- Line 351 of rdbus's README.md describes offsets as absolute, and the overlap check is meant to keep them apart. It
  runs before unset offsets are filled in, so it accepts lists whose modules end up sharing instances
  (`Config.AcceptedButOverlapping`); `Config.OffsetLayout` gives the exact condition.
- A session's entries are told apart by clock readings, so an entry that is sent at the very clock
  reading of a session's last read never reaches it (`SessionRuns.EqualClockLosesEntry`); a session id
  can be handed out again once the highest one has expired (`SessionRuns.NewIdIsReused`).

## Model

| member | source | states |
|---|---|---|
| `ModbusCommunicator.BatchedReadingPreservesMeaning` | src/rdbus/communication/modbus/RequestPlanner.cpp:13-64 | for every slave and every content of the memories of all slaves on the bus, the fields of a poll are one per configured register, holding before input, each table in stable address order, each named after its register and valued as if that register of that very slave had been read alone |
| `ModbusCommunicator.RequestSlave` | src/rdbus/communication/modbus/Communicator.cpp:16-59 | for any answers of the bus the result is named after the slave; it succeeds iff every planned request is answered and readable, and then carries the fields of all of them in order, stamped with their answers' arrival; otherwise the first error that occurs and no field; on a bus that reads the slaves' memories it succeeds with what each register of this slave means |
| `ModbusCommunicator.PollPlan` | src/rdbus/communication/modbus/Communicator.cpp:24-56 | the loop and its handlers, for any plan: all fields in order, or the error of the first request that fails and no field |
| `ModbusCommunicator.TableMeaning` | src/rdbus/communication/modbus/Communicator.cpp:26-34 | the answers to one table's block reads yield the meanings of that table's registers, wherever in the poll they come and whichever slave they address |
| `ModbusCommunicator.BlockMeaning` | src/rdbus/communication/modbus/Interpreter.cpp:154-166 | cutting one block read into registers gives what reading each register alone gives |
| `RequestPlanner.PlanTable` | src/rdbus/communication/modbus/RequestPlanner.cpp:13-51 | the static planner, on any table, gives the division of the address-sorted table into maximal runs of adjacent registers |
| `RequestPlanner.PlanSorted` | src/rdbus/communication/modbus/RequestPlanner.cpp:22-48 | the loop divides a table in address order into maximal runs, each closed where the next register does not continue it |
| `RequestPlanner.RequestPlan` | src/rdbus/communication/modbus/RequestPlanner.cpp:53-64 | the holding table's reads come first, then the input table's, every one of them addressed to the slave |
| `RequestPlanner.SlavePlanPartitions` | src/rdbus/communication/modbus/RequestPlanner.cpp:53-64 | a slave's requests divide into maximal blocks of its sorted output registers, read as holding registers, and of its sorted input registers, read as such, all from the slave itself |
| `RequestPlanner.PlanPartitions` | src/rdbus/communication/modbus/RequestPlanner.cpp:22-48 | the groups concatenate to the sorted table, each is a gapless block starting at its request's address and as long as its request, and no two neighbours could have been one |
| `RequestPlanner.PartitionIsUnique` | src/rdbus/communication/modbus/RequestPlanner.cpp:22-48 | any division of the table with those properties is the planned one |
| `RequestPlanner.PlanIsStableSort` | src/rdbus/communication/modbus/RequestPlanner.cpp:17-19 | registers are read in address order, as a permutation of the configuration that keeps equal addresses in configured order |
| `PlanOptimality.PlanCoversExactly` | src/rdbus/communication/modbus/RequestPlanner.cpp:22-48 | the planned reads touch every configured word and no other |
| `PlanOptimality.PlannedReadsLeaveGaps` | src/rdbus/communication/modbus/RequestPlanner.cpp:22-48 | for non-overlapping registers each planned read ends at least one word before every later one starts |
| `PlanOptimality.PlanIsOptimal` | src/rdbus/communication/modbus/RequestPlanner.cpp:22-48 | for non-overlapping registers no list of block reads with exact coverage is shorter than the plan |
| `ModbusInterpreter.ToRaw16BitRegisters` | src/rdbus/communication/modbus/Interpreter.cpp:17-32 | each word becomes its two bytes, whose big-endian combination is the word |
| `ModbusInterpreter.ToRawMergedRegisters` | src/rdbus/communication/modbus/Interpreter.cpp:34-53 | each register gets the bytes of its own slice of the block |
| `ModbusInterpreter.ToUserInterpretation` | src/rdbus/communication/modbus/Interpreter.cpp:55-79 | byte `j` of a register's value is the one at position `byteOrder[j]`; differing counts are an error |
| `ModbusInterpreter.ToMachineInterpretation` | src/rdbus/communication/modbus/Interpreter.cpp:81-92 | every register's bytes are reversed |
| `ModbusInterpreter.ToParsedFields` | src/rdbus/communication/modbus/Interpreter.cpp:94-150 | one named, stamped field per register with the type-sized little-endian value; unsupported types and differing counts are errors |
| `ModbusInterpreter.ReversalSwapsEndianness` | src/rdbus/communication/modbus/Interpreter.cpp:81-92 | the little-endian value of the reversed bytes is the big-endian value of the bytes |
| `ModbusInterpreter.Parse` | src/rdbus/communication/modbus/Interpreter.cpp:154-166 | the five stages together give each register of the block the value it has alone |
| `ByteOrders.DecodeInvertsEncode` | src/rdbus/communication/modbus/Interpreter.cpp:17-150 | for a permutation, every value of the type (two's complement when signed) is read back from the words that encode it |
| `ByteOrders.EncodeInvertsDecode` | src/rdbus/communication/modbus/Interpreter.cpp:17-150 | for a permutation, every register content is the encoding of the value it is read as, and that value fits the type |
| `ByteOrders.StraightOrderSpellsWords` | src/rdbus/communication/modbus/Interpreter.cpp:17-150 | with the straight order an unsigned register reads as the number its words spell, most significant first |
| `ByteOrders.HoldsIsIntegerRange` | src/rdbus/communication/modbus/Interpreter.cpp:94-150 | the numbers of a type are exactly those of the C++ integer it is called after |
| `ByteOrders.OrdersByExample` | src/rdbus/config/modbus/Register.cpp:101-105 | what the four 32-bit orders make of the words 0x0102 and 0x0304 |
| `ByteOrders.GatherIsDocumentedScatter` | src/rdbus/config/modbus/Register.hpp:16-20 | the interpreter agrees with the documented meaning of a byte order on all contents iff the order is an involution |
| `ByteOrders.WildOrderAgainstDocumentation` | src/rdbus/communication/modbus/Interpreter.cpp:70-73 | the wild order `BCDA` is read differently from its documentation |
| `ByteOrders.GatherLosesNothing` | src/rdbus/communication/modbus/Interpreter.cpp:70-73 | rearranging bytes is injective iff the byte order is a permutation |
| `Registers.GetWildType` | src/rdbus/config/modbus/Register.cpp:13-78 | which type and order strings are accepted, with a floating-point, unsigned or signed type as named and as wide as the order, and the letters' positions; and exactly when each of the seven faults is reported |
| `Registers.WildOrderIsUsable` | src/rdbus/config/modbus/Register.cpp:23-31 | an accepted order stays inside its register iff its letters are among the first ones, and is a permutation iff moreover none repeats |
| `Registers.WildOrderCanLeaveTheRegister` | src/rdbus/config/modbus/Register.cpp:23-31 | an accepted order that reaches past its register |
| `Registers.StandardTypesAreInvolutions` | src/rdbus/config/modbus/Register.cpp:80-133 | every entry of the type table has the kind and width that its name says, and an involutive permutation as documented for it |
| `Registers.StandardNamesAreDocumented` | src/rdbus/config/modbus/Register.cpp:80-133 | exactly the documented type names are known |
| `Registers.MakeRegister` | src/rdbus/config/modbus/Register.cpp:135-168 | a standard type succeeds iff it is in the table and has no order, and yields its entry; a wild type succeeds iff width, type and letters are right, and yields the letters' positions; every register has a supported type as wide as its byte order |
| `Config.SpacingScanIsExact` | src/rdbus/config/Config.cpp:184-206 | what the scan over the address-sorted table accepts, and the exact condition, on neighbours with address zero between them, under which that is the absence of overlaps between any two registers; tables without negative addresses always meet it |
| `Config.ComparisonIsWrongAroundZero` | src/rdbus/config/Config.cpp:191-197 | for neighbours in address order the comparison, in which a signed address meets a `size_t`, errs iff address zero lies between them |
| `Config.SpacingScanFailsAroundZero` | src/rdbus/config/Config.cpp:191-197 | an overlap at addresses -2 and -1 that is accepted, and disjoint registers at -5 and 10 that are rejected |
| `Config.NameScanIsExact` | src/rdbus/config/Config.cpp:163-182 | sorting by name and comparing neighbours rejects iff two names are equal |
| `Config.IdScanIsExact` | src/rdbus/config/Config.cpp:135-147 | the same for slave ids |
| `Config.CheckRegisterAddressSpacing` | src/rdbus/config/Config.cpp:184-206 | accepts iff both tables of every slave pass the scan; without negative addresses, iff all their registers are pairwise disjoint |
| `Config.CheckDuplicateRegisterNames` | src/rdbus/config/Config.cpp:163-182 | accepts iff no two registers of a slave, in whichever table, have the same name |
| `Config.CheckDuplicateSentenceIds` | src/rdbus/config/Config.cpp:121-133 | accepts iff the sentence ids are distinct |
| `Config.CheckModbus` | src/rdbus/config/Config.cpp:208-218 | reports the first of the Modbus checks that fails; without negative addresses all pass iff there are slaves, their registers are disjoint, and names and ids are distinct |
| `Config.SetOffsetValues` | src/rdbus/config/Config.cpp:84-100 | in place, the first module and those with an explicit offset keep it, every other starts where its predecessor ends up ending, and nothing else changes |
| `Config.CheckOverlappingOffsets` | src/rdbus/config/Config.cpp:102-119 | rejects iff an explicit offset lies before the end of the preceding module as configured |
| `Config.CheckModules` | src/rdbus/config/Config.cpp:272-274 | reports the first of the Wago checks that fails |
| `Config.PrepareModules` | src/rdbus/config/Config.cpp:272-275 | the Wago checks accept iff names are distinct and no explicit offset is rejected; then every module gets its final offset, and a rejected list is left untouched |
| `Config.OffsetLayout` | src/rdbus/config/Config.cpp:84-119 | an explicit module stays put and any other starts after all the instances since the module that anchors it; the final ranges ascend and are disjoint iff every explicit offset leaves room for all modules since its anchor |
| `Config.AcceptedAgainstLayout` | src/rdbus/config/Config.cpp:102-119 | the overlap check never rejects a sound layout, and is exact when explicit offsets only follow the first module or another explicit one |
| `Config.AcceptedButOverlapping` | src/rdbus/config/Config.cpp:274-275 | a list that the check accepts although its final ranges are not laid out disjointly |
| `Buffer.UpperBound` | src/rdbus/out/Buffer.cpp:102-110 | on sorted data the binary search finds the first entry newer than the given time |
| `Buffer.Buffer.RemoveIntersection` | src/rdbus/out/Buffer.cpp:22-48 | exactly the entries of devices that the list does not mention remain, in order |
| `Buffer.OthersAre` | src/rdbus/out/Buffer.cpp:22-48 | what a Single buffer keeps are exactly the entries whose device the list does not mention, in order |
| `Buffer.Buffer.ConstrainSize` | src/rdbus/out/Buffer.cpp:116-124 | the longest suffix that fits `maxBytes` remains |
| `Buffer.Buffer.Add` | src/rdbus/out/Buffer.cpp:50-69 | the new entries come last, in list order and stamped with the clock; in front of them a Stream keeps the newest that fit and a Single buffer exactly the entries of unmentioned devices |
| `Buffer.Buffer.ParseFrom` | src/rdbus/out/Buffer.cpp:97-114 | delivers the last entries of the buffer in order: while the clock has not gone back exactly those newer than the given time; from a Single buffer all |
| `Buffer.StreamKeepsNewest` | src/rdbus/out/Buffer.cpp:50-69 | after any run the buffer holds the last entries of all lists ever added, as many as fit, in the order in which they were added |
| `Buffer.EverythingIsAdded` | src/rdbus/out/Buffer.cpp:59-63 | the entries ever added are the lists of all batches, one after the other |
| `Buffer.StreamStaysSorted` | src/rdbus/out/Buffer.cpp:97-114 | the buffer stays sorted by time while the clock does not go back |
| `Buffer.SingleHoldsLatest` | src/rdbus/out/Buffer.cpp:22-63 | over any run of batches without repeated devices a Single buffer holds exactly the entries that nothing later supersedes |
| `Buffer.LatestIsLatest` | src/rdbus/out/Buffer.cpp:22-63 | those entries are one per device ever seen, each the device's most recent, ordered by last update |
| `Buffer.SingleHoldsOnePerDevice` | src/rdbus/out/Buffer.cpp:22-63 | the buffer holds one entry per device throughout a run iff no batch repeats a device |
| `Sessioner.Sessioner.Create` | src/rdbus/out/http/Sessioner.cpp:14-35 | the new id is one more than the highest stored one, or 1, so differs from every stored one, and nothing else changes |
| `Sessioner.Sessioner.ClearExpiredCookies` | src/rdbus/out/http/Sessioner.cpp:37-53 | exactly the sessions idle for less than five minutes remain |
| `Sessioner.Sessioner.GetLastAccessTime` | src/rdbus/out/http/Sessioner.cpp:55-72 | succeeds iff the session is stored and was touched less than five minutes ago, returns that time and touches the session |
| `HttpServer.Http.SendData` | src/rdbus/out/http/HTTP.cpp:115-119 | a send is the next step of the run |
| `HttpServer.Http.ReadData` | src/rdbus/out/http/HTTP.cpp:59-77 | a read is the next step of the run and is answered as the run prescribes |
| `HttpServer.BufferHoldsNewest` | src/rdbus/out/Buffer.cpp:50-69 | after any interleaving of sends and reads the buffer holds the last entries of all lists sent, as many as fit, in order |
| `HttpServer.LogOrigin` | src/rdbus/out/http/HTTP.cpp:115-119 | every logged entry comes from the send that its position belongs to and carries that send's clock reading |
| `SessionRuns.AccessSucceedsIff` | src/rdbus/out/http/Sessioner.cpp:55-72 | after any run, an access succeeds iff the session's latest access is less than five minutes old |
| `SessionRuns.TableMatchesRun` | src/rdbus/out/http/Sessioner.cpp:14-72 | after any run, a stored session was last touched by its latest access, and a session that is gone had been idle too long |
| `SessionRuns.ReadDeliversExactlyNew` | src/rdbus/out/http/HTTP.cpp:59-77 | with an advancing clock, each read of a live session delivers precisely the end of what was sent since its previous read that is not evicted, lists in the order of the sends and entries in the order of their lists |
| `SessionRuns.ReadDelivers` | src/rdbus/out/http/HTTP.cpp:59-77 | with a clock that only never goes back, nothing is delivered twice, and nothing still held is missed iff no send since carries the clock reading of the previous read |
| `SessionRuns.FirstReadDelivers` | src/rdbus/out/http/HTTP.cpp:63-76 | a read without a cookie delivers all that is held and opens a session with an unused id |
| `SessionRuns.EqualClockLosesEntry` | src/rdbus/out/Buffer.cpp:102-110 | a run with equal clock readings in which an entry is never delivered |
| `SessionRuns.SessionReceivesWholeLog` | src/rdbus/out/http/HTTP.cpp:59-77 | with an advancing clock, a session's replies concatenate to all lists sent up to its latest read if it never fell more than the buffer's capacity behind, and to fewer entries otherwise |
| `SessionRuns.SessionReceivesInOrder` | src/rdbus/out/http/HTTP.cpp:59-77 | with a clock that only never goes back, a session's replies over its whole life are entries sent up to its latest read, at strictly ascending positions: nothing twice and everything in order |
| `SessionRuns.OthersDoNotDisturb` | src/rdbus/out/http/Sessioner.cpp:37-72 | any number of reads by other clients leaves an unexpired session's next answer unchanged |
| `SessionRuns.NewIdIsReused` | src/rdbus/out/http/Sessioner.cpp:14-35 | a new session gets an id that was already handed out iff the highest id ever handed out is no longer stored |
| `SessionRuns.ExpiredIdIsReused` | src/rdbus/out/http/Sessioner.cpp:14-53 | a run in which an expired session's id goes to a later client |
| `Limits.Processor.RemoveOldValues` | src/rdbus/processing/limits/Processor.cpp:74-85 | of the device's store exactly the samples inside the window remain |
| `Limits.Processor.AddMissingFields` | src/rdbus/processing/limits/Processor.cpp:58-66 | the fields not known yet are added without samples |
| `Limits.Processor.InsertNewValues` | src/rdbus/processing/limits/Processor.cpp:87-97 | every field with a value gets its sample, in order |
| `Limits.Processor.GenerateOutput` | src/rdbus/processing/limits/Processor.cpp:99-120 | the output is named after the device and has one entry per known field, in key order, with the extremes of its samples |
| `Limits.Processor.ProcessInput` | src/rdbus/processing/limits/Processor.cpp:17-56 | one reading takes the store to its next state and puts out, for its device, the report of the history so far; failed readings and other devices are skipped |
| `Limits.Processor.Process` | src/rdbus/processing/limits/Processor.cpp:17-56 | one output per error-free reading of an enabled device, in input order, named after that reading's device and reporting its fields' least and greatest values in the window over the history up to that reading |
| `Limits.StoreRefinesHistory` | src/rdbus/processing/limits/Processor.cpp:17-97 | after any history a field is known iff some reading of the device mentioned it, and its samples are exactly the values that arrived and are inside the window of every later reading, in order |
| `Limits.ReportRefinesHistory` | src/rdbus/processing/limits/Processor.cpp:99-120 | after any history the report lists the mentioned fields in name order with the least and greatest value still in the window of every later reading, absent iff there is none |
| `Limits.SurvivalIsWindow` | src/rdbus/processing/limits/Processor.cpp:74-85 | when reading times never go back, a value survives iff it came with the latest reading or lies within the duration of it |
| `NmeaResponse.ComputeChecksum` | src/rdbus/communication/nmea/Response.cpp:37-53 | the exclusive or of everything between '$' and '*' |
| `NmeaResponse.XorIsParity` | src/rdbus/communication/nmea/Response.cpp:37-53 | each bit of the checksum is set iff an odd number of the bytes have it set |
| `NmeaResponse.ChecksumMatches` | src/rdbus/communication/nmea/Response.cpp:55-70 | compares it with the hex number after '*', as the stream extraction reads it |
| `NmeaResponse.Validate` | src/rdbus/communication/nmea/Response.cpp:72-96 | without checksum validation every framed message is accepted; with it, iff it has the right checksum; and which fault is reported |
| `NmeaResponse.CleanBack` | src/rdbus/communication/nmea/Response.cpp:99-110 | the longest beginning of the token before any '*', and without a '*' the token less its last two bytes, or all of a token shorter than two |
| `NmeaResponse.Tokenize` | src/rdbus/communication/nmea/Response.cpp:118-127 | the tokens that `getline` finds between commas |
| `NmeaResponse.NewResponse` | src/rdbus/communication/nmea/Response.cpp:112-135 | the fault, or the talker, sentence id and fields of the message |
| `NmeaFraming.ReadInvertsPrint` | src/rdbus/communication/nmea/Response.cpp:112-135 | a printed sentence, with any talker, id and possibly empty or missing fields, is read back exactly with checksum validation on |
| `NmeaFraming.ReadInvertsPrintUnchecked` | src/rdbus/communication/nmea/Response.cpp:112-135 | without checksum validation the same, whatever stands in place of the checksum |
| `NmeaFraming.HexRoundTrip` | src/rdbus/communication/nmea/Response.cpp:63-69 | two printed hex digits are read as the byte they stand for, so every sentence of plain parts is printable |
| `NmeaFraming.ReadLosesNothing` | src/rdbus/communication/nmea/Response.cpp:98-135 | every accepted message is its parsed parts followed by CRLF or by a tail that starts at '*'; the talker is as long as its first letter says and no part has a comma |
| `NmeaFraming.SubstitutionIsNoticed` | src/rdbus/communication/nmea/Response.cpp:37-96 | in any message that passes checksum validation, replacing any one byte strictly between '$' and '*' makes it fail, with which error |
| `NmeaFraming.SubstitutionIsUnnoticed` | src/rdbus/communication/nmea/Response.cpp:72-96 | without checksum validation the same replacement is accepted iff it does not make a second '*' |
| `NmeaFraming.DamagedFieldIsSentence` | src/rdbus/communication/nmea/Response.cpp:112-135 | damage inside a field gives the text of the sentence with that field changed |
| `NmeaInterpreter.Split` | src/rdbus/communication/nmea/Interpreter.cpp:106-126 | the stream is '$'-free garbage followed by the chunks, each of which starts at a '$' and has no other |
| `NmeaInterpreter.CutIsUnique` | src/rdbus/communication/nmea/Interpreter.cpp:106-126 | there is only one such way to cut a stream |
| `NmeaInterpreter.StreamRoundTrip` | src/rdbus/communication/nmea/Interpreter.cpp:106-126 | any '$'-free garbage followed by printed sentences splits into exactly those sentences, and each is read back |
| `NmeaInterpreter.ParseFields` | src/rdbus/communication/nmea/Interpreter.cpp:34-104 | names and values are paired position by position, each value the conversion of its text that its type asks for; unknown sentences, differing counts and the first inconvertible field are errors |
| `NmeaCommunicator.Receive` | src/rdbus/communication/nmea/Communicator.cpp:14-81 | one result per chunk, in order; a chunk is rejected iff it is not framed or, if checksums are validated, has the wrong one; of a stream of configured sentences each yields its paired fields and id; damage to one byte of one of them concerns that one only, which is rejected iff checksums are validated or the damage is a '*'; silence gives nothing and a broken connection one error |
| `NmeaCommunicator.ResultsAreLocal` | src/rdbus/communication/nmea/Communicator.cpp:52-80 | equal chunks give equal results, wherever they come |
| `Wago.ExtractOnBits` | src/rdbus/communication/wago/Communicator.cpp:24-31 | on 16-bit words the bit operations divide everything below the sign bit by 16 |
| `Wago.ExtractAnalog` | src/rdbus/communication/wago/Communicator.cpp:24-31 | the sign stays and the 15 bits below it lose their four lowest |
| `Wago.NoOverflow` | src/rdbus/communication/wago/Communicator.cpp:33-36 | no intermediate leaves 32 bits, for any raw word and any range |
| `Wago.ScalingTruncates` | src/rdbus/communication/wago/Communicator.cpp:24-36 | for any word the scaled value is, up to multiples of 2^16, the exact linear value rounded towards the minimum |
| `Wago.ScalingBounds` | src/rdbus/communication/wago/Communicator.cpp:33-36 | for sign-clear words the result lies in the range, maps code 0 to its minimum and 2047 to its maximum, and is within one unit of the exact value |
| `Wago.ScalingMonotone` | src/rdbus/communication/wago/Communicator.cpp:33-36 | for sign-clear words the result is monotone in the raw word |
| `Wago.WideInRangeIffSignClear` | src/rdbus/communication/wago/Communicator.cpp:33-36 | before the narrowing to 16 bits the result lies in the range iff the sign bit is clear, apart from ranges of one value |
| `Wago.InRangeIffSignClear` | src/rdbus/communication/wago/Communicator.cpp:24-36 | the reported 16-bit value lies in the range exactly for words with a clear sign bit, iff no multiple of 2^16 lets a word with the sign bit set wrap around into the range |
| `Wago.ReentryStartsAt3854` | src/rdbus/communication/wago/Communicator.cpp:33-36 | no word wraps around into a range of 1 to 3853 steps; in one of 3854 the lowest word does |
| `Wago.HitsEveryValue` | src/rdbus/communication/wago/Communicator.cpp:33-36 | every value of the range is reported for some raw word, whatever its sign bit, iff the range spans at most 2047 steps |
| `Wago.SeparatesCodes` | src/rdbus/communication/wago/Communicator.cpp:33-36 | different codes are reported differently iff the range spans at least 2047 steps |
| `Wago.RequestModule` | src/rdbus/communication/wago/Communicator.cpp:38-80 | all instances, read at consecutive ids and scaled, or the first error and no field |

## Left out

- Serial port, EIP sessions, the HTTP server with its threads, JSON, time formatting and logging: input and output; answers and clock readings are parameters.
- CRC and framing of Modbus messages: the MB library is not part of this model; a response is a list of at least as many words as were asked for, or an error.
- The 125-register limit of one Modbus read: the planner does not split on it, and nothing is claimed about it.
- Floating-point values: Modbus floats and doubles are their raw bits; in the limits processor a value is a variant alternative and a rank in a total order, so NaN does not occur.
- `std::stoll`, `std::stoull` and `std::stod`: partial functions that are parameters of `NmeaInterpreter.ParseFields`.
- Negative register addresses: the configuration checks are modelled on them, but the read path starts from non-negative addresses.
- Byte orders with positions outside their register: reading them is undefined in C++, so the read path requires positions in range.
- NMEA streams with a '$' directly followed by another or by the end: validation would look before the first byte of a one-byte chunk, so `Receive` excludes them.
- Error-free readings without fields and empty module lists: the limits processor and the offset checks dereference the first element, so they are excluded.
- `sizeof( rdbus::Data )`: a positive parameter of `Buffer`.
- Session ids and offsets beyond 32 bits: ids and offsets are unbounded integers.
- The catch block of `Processor::process`: nothing in the modelled steps throws.
- The HTTP exception handler, which sets status 401 for an expired session and then overwrites it with 500.
- `HttpServer.Http.ReadData`: says nothing about the delivered entries once the clock has gone back, because a binary search on unsorted data has no specified result.
- `Wago.ExtractAnalog`: works on the number a 16-bit word stands for; `Wago.ExtractOnBits` covers the bit operations on the word itself.
- Poll-interval tasks, `Manager`, `Storage`, `Pipe`, the limits route and the remaining name checks: thin wiring over the modelled parts.
