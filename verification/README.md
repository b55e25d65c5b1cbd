# Verified model of the eBUS data-link core

This project models the core of an eBUS library: the byte-driven protocol handler, bus arbitration, the
wire format both rest on (byte stuffing, CRC-8, telegram grammar), and three machines around them: the
automatic SYN generator, the message scheduler and the device scanner. Everything is proved by the Dafny
verifier; `dafny verify dfyconfig.toml` checks the whole project.

How it is laid out:

- **Bytes, Bits** hold bytes as integers below 256, the reserved symbols, the address rules, and a byte as
  eight bits for the few bitwise operations.
- **Stuffing, Crc, Sequence, Telegram, Parser** are the codec. `Sequence.Sequence` is the array-backed byte
  vector whose in-place loops refine the pure functions; `Parser.TelegramParser` is the telegram object
  whose `Parse` decides the grammar.
- **Handler** gives one step of the protocol automaton as a function on values, one function per state.
  **HandlerObject** is the same automaton as an object whose methods update its fields; each method is
  proved equal to its function. **HandlerInvariant, HandlerSteps, HandlerRuns** prove what every run keeps,
  **ActiveExchange** that an exchange ends, **WriteDiscipline** what is put on the bus, **Reception, Feed,
  Streaming, StreamingExact** when observing byte by byte agrees with parsing, **Effort** how many bytes an
  observed exchange takes at least, **RawReception** how a part of any stuffing is buffered and judged,
  **Transmission** what the sender of a message writes and reports, refused and spoiled attempts included,
  **Addressee** how a part for the node itself is answered, **Observation** what an observer makes of bytes
  that are no proper exchange, **Losers** which losers of an arbitration deliver the winner's exchange,
  **Agreement** that three handlers on one wire report the same exchange.
- **Request, Arbitration** are one arbitration automaton and the election that several perform on a
  wired-AND line. **BusHandler** composes arbitration and protocol into one bus event.
- **SynGenerator, Heap, Scheduler, Devices, Scanner** are the machines around the core.

Callbacks are outputs of a step, and what the reactive callback answers is an input. Times are integers
given as parameters. Each mutex-guarded method is one atomic step. Memory allocation succeeds.

Where the code shaped the statements:

- An accepted master part always carried its CRC on the wire, although `createMaster` also accepts a part
  without one: the length test never fires early enough (`HandlerInvariant.AcceptedCarriesCrc`).
- Passive master-master and master-slave telegrams are delivered on the observed acknowledge alone, even
  when their CRC did not match (src/ebus/core/handler.cpp:321-323, 397-404), so soundness is stated for the
  other kinds of delivery.
- Active broadcast and master-master telegrams are delivered in wire form with their CRC
  (src/ebus/core/handler.cpp:620-622, 640-642), all others in logical form without it.
- Streaming equals parsing only for properly stuffed bytes. For exchanges without a refused attempt the
  exact condition is proved as an equivalence, with a concrete input that separates the two: a master
  part must be properly stuffed, while in a slave part only each 0xA9 must open an escape pair, because the
  handler buffers a bare SYN there like any other byte (src/ebus/core/handler.cpp:376-406).
- The flag for a repeated master part survives an attempt that was refused and then given up: the SYN finds
  nothing buffered and clears nothing (src/ebus/core/handler.cpp:335-341, 359-364, 780-805). The next
  refused attempt is then reported as an error, although the exchange is still delivered. So a waiting node
  observes without an error exactly unless the flag is stale and the exchange holds a refused attempt.
- A node that lost the arbitration keeps the byte it lost with and follows the winner, except in the
  winner's own priority class: it waits for a second round, and has dropped the first two bytes when it
  finds there is none (src/ebus/core/handler.cpp:515-590).
- `needsDeepScan` is documented for the device at the given address, but looks from that address on
  (src/ebus/app/device_manager.cpp:131-134, src/ebus/app/device_manager.hpp:79-83). A device that can answer
  nothing more is therefore queued again, and quarantined after ten results, while a later one lacks answers.
- Retrying into a full queue loses the message (src/ebus/app/scheduler.cpp:194); the accounting has a class
  for it. A session counts as finished when any report with its number ends it.
- The lowest generator address is alone on every timely run if and only if no other node was already
  generating when the common byte was a SYN; otherwise a timely run on which that node writes is given.

## Model

| member | source | states |
|---|---|---|
| `Bytes.MasterNibbleTrick` | include/ebus/address.hpp:73-76 | the bit test of the address rule selects exactly the nibbles 0, 1, 3, 7, 15 |
| `Bytes.SlaveOfMaster` | include/ebus/address.hpp:94-99 | every master has a proper slave address different from its own |
| `Bytes.SlaveOfInjective` | include/ebus/address.hpp:94-99 | no two masters share a slave address |
| `Stuffing.UnstuffStuff` | include/ebus/sequence.hpp:322-373 | unstuffing undoes stuffing whatever follows |
| `Stuffing.RoundTripExact` | include/ebus/sequence.hpp:322-373 | reduce after extend is the identity, stuffed bytes hold no SYN, extend after reduce is the identity exactly on well-formed stuffing |
| `Stuffing.UnstuffSplit` | include/ebus/sequence.hpp:352-373 | wire bytes split wherever their logical bytes do, never inside an escape pair |
| `Stuffing.FrameEnd` | src/ebus/core/handler.cpp:255-264 | counting bytes other than 0xA9 reaches the logical length at the last byte of a stuffed part and never before |
| `Sequence.Sequence.Extend` | include/ebus/sequence.hpp:322-350 | the in-place backward loop leaves the stuffed form, for every length |
| `Sequence.Sequence.StretchBackward` | include/ebus/sequence.hpp:334-348 | the loop itself, against the layout of the escapes |
| `Sequence.Sequence.Reduce` | include/ebus/sequence.hpp:352-373 | the in-place forward loop leaves the unstuffed form |
| `Sequence.Sequence.ShrinkForward` | include/ebus/sequence.hpp:358-371 | the loop itself leaves the unstuffed form in front |
| `Sequence.Sequence.PushBack` | include/ebus/sequence.hpp:313-316 | appends one byte, growing the storage when needed |
| `Sequence.Sequence.Resize` | include/ebus/sequence.hpp:92-98 | keeps the bytes that remain |
| `Sequence.Sequence.CrcOf` | include/ebus/sequence.hpp:429-431 | the CRC of the wire form, whichever form is stored |
| `Sequence.FrameMaster` | src/ebus/utils/utils.cpp:233-240 | the stuffed form of source, payload and their CRC |
| `Sequence.FrameSlave` | src/ebus/utils/utils.cpp:252-258 | the stuffed form of payload and its CRC |
| `Crc.CalculateCrcEntry` | include/ebus/protocol_math.hpp:54-64 | the eight-turn loop multiplies by x^8 modulo the polynomial |
| `Crc.GenerateCrcTable` | include/ebus/protocol_math.hpp:69-75 | every table entry is that product |
| `Crc.TimesXIsShift` | include/ebus/protocol_math.hpp:56-62 | one turn is a shift with conditional exclusive-or of 0x9B |
| `Crc.LookupIsEntry` | include/ebus/protocol_math.hpp:85-87 | one table access is one step of the register |
| `Crc.CalculateCrc` | include/ebus/sequence.hpp:414-427 | escaping on the fly gives the CRC of the stuffed form |
| `Crc.CrcIsTheRemainder` | include/ebus/protocol_math.hpp:54-87 | a byte completes the division of the message polynomial by x^8+x^7+x^4+x^3+x+1 if and only if it is the computed register |
| `Crc.CrcLinear` | include/ebus/protocol_math.hpp:85-87 | the CRC of an exclusive-or is the exclusive-or of the CRCs |
| `Crc.SingleByteErrorDetected` | include/ebus/sequence.hpp:414-427 | changing any one wire byte changes the CRC |
| `Telegram.CreateMasterExact` | src/ebus/core/telegram.hpp:112-165 | a master part is accepted exactly when it is valid, with its matching CRC or without one |
| `Telegram.CreateSlaveExact` | src/ebus/core/telegram.hpp:174-206 | likewise for a slave part, except an empty one without CRC |
| `Telegram.MasterFlawsNamed` | src/ebus/core/telegram.hpp:112-165 | a part spoiled in one place, cut off, prolonged or with a wrong CRC is refused with the matching error |
| `Telegram.SlaveFlawsNamed` | src/ebus/core/telegram.hpp:174-206 | likewise a slave part |
| `Parser.TelegramParser.SetMaster` | src/ebus/core/telegram.hpp:112-165 | the method computes the same judgement on the object's fields |
| `Parser.TelegramParser.SetSlave` | src/ebus/core/telegram.hpp:174-206 | the method computes the same judgement on the object's fields |
| `Parser.TelegramParser.ParseMasterPart` | src/ebus/core/telegram.hpp:457-480 | reads a master part and its acknowledge; the missing offset only lets a cut-off broadcast through |
| `Parser.TelegramParser.ParseSlavePart` | src/ebus/core/telegram.hpp:481-503 | reads a slave part and its acknowledge exactly |
| `Parser.MasterAtExact` | src/ebus/core/telegram.hpp:387-415 | what stands at an offset as a master part |
| `Parser.SlaveAtExact` | src/ebus/core/telegram.hpp:417-437 | what stands at an offset as a slave part |
| `Parser.ReadExact` | src/ebus/core/telegram.hpp:72-102 | the reference reader finds an exchange exactly when its bytes are a prefix of the input |
| `Parser.TelegramParser.ParseLogical` | src/ebus/core/telegram.hpp:76-102 | the parser is valid exactly where the reference reader succeeds, and reports its parts |
| `Parser.TelegramParser.Parse` | src/ebus/core/telegram.hpp:72-102 | after parsing, isValid holds if and only if the unstuffed input starts with an exchange of the grammar, whose parts the fields show |
| `Parser.WireRoundTrip` | src/ebus/core/telegram.hpp:72-102 | every exchange is read back from its wire form, which holds no SYN |
| `Parser.ReadThenWire` | src/ebus/core/telegram.hpp:72-102 | writing what was read from proper stuffing gives back the bytes read |
| `Parser.FramesAreWire` | src/ebus/utils/utils.cpp:233-258 | framing the parts and adding raw acknowledges is the wire form of the exchange |
| `Parser.FrameAndParse` | src/ebus/utils/utils.cpp:233-258 | framing then parsing is valid and returns source, payloads and CRCs, end to end |
| `Request.Request.Run` | src/ebus/core/request.cpp:101-107 | one byte through the arbitration object |
| `Request.Request.RunFirst` | src/ebus/core/request.cpp:134-177 | the first round: won, retry within the priority class, lost or error |
| `Request.Request.RunSecond` | src/ebus/core/request.cpp:193-212 | the second round |
| `Request.Request.RunRetry` | src/ebus/core/request.cpp:179-191 | the wait for the automatic SYN |
| `Request.Request.RunObserve` | src/ebus/core/request.cpp:118-132 | the lock counter while observing |
| `Request.Request.RequestBus` | src/ebus/core/request.cpp:67-77 | a request is taken exactly when the bus is available |
| `Request.Request.BusRequestCompleted` | src/ebus/core/request.cpp:79-88 | the request is consumed and arbitration begins |
| `Request.Request.SetLockCounter` | src/ebus/core/request.cpp:48-51 | the maximum is limited to 25 and bounds the counter |
| `Request.Request.ResetAll` | src/ebus/core/request.cpp:39-46 | the lock is armed again and the node observes |
| `Request.LockIsPaidBySyns` | src/ebus/core/request.cpp:118-132 | on every run the counter stays below its maximum, and only counting SYNs reduce it |
| `Request.LockExactly` | src/ebus/core/request.cpp:118-132 | between wins and resets the lock is exactly what the counting SYNs have left of it |
| `Request.RequestTakenExactly` | src/ebus/core/request.cpp:67-77 | after a SYN read while observing, a request is taken if and only if none is pending and the lock has been paid off |
| `Request.BytesAreCounted` | src/ebus/core/request.cpp:118-132 | an observing node counts the bytes since the last SYN |
| `Request.LockIsLimited` | src/ebus/core/request.cpp:48-51 | the lock maximum is what was asked for, but never above 25 |
| `Request.VerdictOnNoise` | src/ebus/core/request.cpp:134-212 | noise ends an arbitration with an error, SYN begins a round anew |
| `Request.RoundThenSyn` | src/ebus/core/request.cpp:134-212 | the SYN after a lost or failed round does not count against the lock, the one after a win does |
| `Request.ResetWaits` | src/ebus/core/request.cpp:39-46 | after a reset the lock must be paid off before the next request |
| `Request.WinnerWaits` | src/ebus/core/request.cpp:118-212 | between a win and the next accepted request at least as many counting SYNs pass as the lock maximum |
| `Arbitration.WiredAndOfMasters` | src/ebus/platform/simulation/virtual_line.hpp:53-57 | the wired AND of master addresses is the minimum of each nibble and itself a master |
| `Arbitration.FirstRound` | src/ebus/core/request.cpp:134-177 | the first round has one winner, first in rank, or leaves one priority class |
| `Arbitration.SecondRound` | src/ebus/core/request.cpp:179-212 | the remaining class elects one winner, first in rank |
| `Arbitration.ElectsExactlyOne` | src/ebus/core/request.cpp:134-212 | any set of contenders elects exactly one node within two rounds, least by low then high nibble, with no error before the win |
| `HandlerInvariant.PushCounted` | src/ebus/core/handler.cpp:217-264 | the running escape count is right and completes only with a full part |
| `HandlerInvariant.AcceptedCarriesCrc` | src/ebus/core/handler.cpp:262-266 | a part the handler accepts arrived with its matching CRC |
| `HandlerSteps.GoodPassiveReceiveMaster` | src/ebus/core/handler.cpp:217-342 | receiving a master part keeps the invariant and delivers soundly |
| `HandlerSteps.GoodPassiveMasterAcknowledge` | src/ebus/core/handler.cpp:344-374 | so does observing its acknowledge |
| `HandlerSteps.GoodPassiveReceiveSlave` | src/ebus/core/handler.cpp:376-406 | so does observing a slave part |
| `HandlerSteps.GoodPassiveSlaveAcknowledge` | src/ebus/core/handler.cpp:408-433 | so does observing its acknowledge |
| `HandlerSteps.GoodReactivePositive` | src/ebus/core/handler.cpp:435-460 | so does the own acknowledge of a request |
| `HandlerSteps.GoodReactiveNegative` | src/ebus/core/handler.cpp:462-475 | so does the own refusal of a part |
| `HandlerSteps.GoodReactiveSend` | src/ebus/core/handler.cpp:477-483 | so does sending the reply |
| `HandlerSteps.GoodReactiveAcknowledge` | src/ebus/core/handler.cpp:485-513 | so does the end of the reply |
| `HandlerSteps.GoodRequestBus` | src/ebus/core/handler.cpp:515-590 | so does the arbitration verdict |
| `HandlerSteps.GoodActiveSendMaster` | src/ebus/core/handler.cpp:592-635 | so does sending the master part |
| `HandlerSteps.GoodActiveMasterAcknowledge` | src/ebus/core/handler.cpp:637-668 | so does its acknowledge |
| `HandlerSteps.GoodActiveReceiveSlave` | src/ebus/core/handler.cpp:670-713 | so does reading the reply |
| `HandlerSteps.GoodActivePositive` | src/ebus/core/handler.cpp:715-726 | a delivered active exchange has two valid parts whose CRCs came with the bytes |
| `HandlerSteps.GoodByte` | src/ebus/core/handler.cpp:153-205 | every byte in every state keeps the invariant, reports no illegal transition and delivers soundly |
| `HandlerRuns.GoodSend` | src/ebus/core/handler.cpp:134-151 | sending a message keeps the invariant |
| `HandlerRuns.GoodReady` | src/ebus/core/handler.cpp:851-854 | so does a completed bus request |
| `HandlerRuns.GoodReset` | src/ebus/core/handler.cpp:99-103 | so does a reset |
| `HandlerRuns.EveryRun` | src/ebus/core/handler.cpp:33-76 | on every run from power-up: no illegal transition, sound deliveries, empty active and passive slave buffers when idle |
| `HandlerRuns.SynMakesRoom` | src/ebus/core/handler.cpp:335-341 | a bus request right after a SYN handled while idle or arbitrating meets the assumption of the runs |
| `ActiveExchange.ActiveProgress` | src/ebus/core/handler.cpp:592-750 | every byte ends the exchange with everything cleared or uses up budget, except 0xA9 inside a reply |
| `ActiveExchange.ActiveExchangeEnds` | src/ebus/core/handler.cpp:592-750 | fewer than 127 bytes other than 0xA9 are handled, the master part is sent at most twice, the slave part read at most twice |
| `WriteDiscipline.SynExactlyOnRelease` | src/ebus/core/handler.cpp:293-303 | SYN is written exactly by the steps that enter release_bus |
| `WriteDiscipline.ForeignPartCausesNoWrite` | src/ebus/core/handler.cpp:276-333 | while observing, only a part addressed to us makes the node write |
| `WriteDiscipline.RequestIsAcknowledged` | src/ebus/core/handler.cpp:279-292 | an accepted request is acknowledged and the callback's answer prepared in wire form |
| `WriteDiscipline.ReplyDiscipline` | src/ebus/core/handler.cpp:435-513 | the node writes ACK and the stuffed reply, repeats the reply once and only on NAK, and is then silent and idle |
| `Reception.StepMasterLast` | src/ebus/core/handler.cpp:255-266 | the last byte of a stuffed master part, and no earlier one, has it judged |
| `Reception.StepMasterMid` | src/ebus/core/handler.cpp:217-260 | every earlier byte is only buffered and counted |
| `Reception.StepSlaveLast` | src/ebus/core/handler.cpp:376-406 | the last byte of a stuffed slave part has it judged |
| `Reception.StepActiveSlaveLast` | src/ebus/core/handler.cpp:670-713 | the same for the sender reading the reply |
| `Streaming.RunRefusedMaster` | src/ebus/core/handler.cpp:344-374 | a refused attempt makes the node expect a repetition, or is an error if the node already expects one |
| `Streaming.RunMasterPhase` | src/ebus/core/handler.cpp:344-374 | a foreign master part with its optional refused attempt, for any waiting node |
| `Streaming.RunSlavePhase` | src/ebus/core/handler.cpp:376-433 | a foreign slave part with its optional refused attempt |
| `Streaming.WireIsParts` | src/ebus/core/telegram.hpp:72-102 | the wire form of an exchange is its stuffed parts with raw acknowledges |
| `Streaming.StreamingDelivers` | src/ebus/core/handler.cpp:217-433 | fed the wire of any foreign exchange, every waiting node delivers exactly that telegram, writes nothing and is idle again; it reports no error if and only if its repeat flag is not stale or no attempt is refused |
| `Streaming.StreamingRefinesParse` | src/ebus/core/handler.cpp:217-433 | properly stuffed bytes that parse accepts without rest are delivered as the same kind and parts without an error, if and only if the repeat flag is not stale or no attempt is refused |
| `Streaming.NothingBufferedIsWaiting` | src/ebus/core/handler.cpp:780-805 | on every run, a listening node with an empty master buffer is waiting |
| `Streaming.RefusedThenSyn` | src/ebus/core/handler.cpp:335-341 | a refused and abandoned attempt leaves the repeat flag set |
| `Streaming.StaleRepeatReported` | src/ebus/core/handler.cpp:359-372 | from power-up, a concrete course of events after which a correct exchange is reported as an error and then delivered |
| `Effort.PayStep` | src/ebus/core/handler.cpp:217-513 | one byte brings an observing node at most one closer to delivering a given telegram, and 0xA9 not at all |
| `Effort.DeliveryIsPaid` | src/ebus/core/handler.cpp:217-513 | whatever is read, no master-slave telegram is delivered before as many bytes other than 0xA9 as it has with its CRCs and acknowledges |
| `RawReception.FirstEvent` | src/ebus/core/handler.cpp:217-264 | on bytes of any stuffing the node buffers silently up to a SYN or the byte that makes the part full |
| `RawReception.CompletedIsJudged` | src/ebus/core/handler.cpp:255-264 | a complete part, good or bad, is judged at its last byte and not before |
| `StreamingExact.MasterStreamingExact` | src/ebus/core/handler.cpp:217-374 | for bytes that parse as a foreign broadcast or master-master exchange, streaming delivers it and nothing else if and only if they are properly stuffed |
| `StreamingExact.MasterSlaveStreamingExact` | src/ebus/core/handler.cpp:217-433 | for bytes that parse as a foreign master-slave exchange, streaming delivers it and nothing else if and only if the master part is properly stuffed and each 0xA9 of the slave part opens an escape pair |
| `StreamingExact.BareIsParsed` | src/ebus/core/telegram.hpp:72-102 | the logical bytes the master-slave equivalence speaks of are what the reader accepts as that exchange |
| `StreamingExact.BareSynIsNotDelivered` | src/ebus/core/handler.cpp:335-341 | a concrete input that parse accepts and streaming does not |
| `Transmission.SendExactly` | src/ebus/core/handler.cpp:134-151 | a message is taken if and only if none is pending and it is, with the own address in front, a valid part with or without its CRC; that part is then pending |
| `Transmission.RequestEntersArbitration` | src/ebus/core/handler.cpp:851-854 | a completed bus request puts a pending message up for arbitration |
| `Transmission.VerdictTable` | src/ebus/core/handler.cpp:515-590 | what each of the twelve verdicts makes of a waiting message: the second byte out, still waiting, or given up with or without the byte read |
| `Transmission.EchoStep` | src/ebus/core/handler.cpp:592-635 | on each byte read back the next one is written, a broadcast ends with SYN, and any other byte aborts the message with one error and in silence |
| `Transmission.AcknowledgeStep` | src/ebus/core/handler.cpp:637-668 | what each answer to the master part leads to, the delivery of a master-master message included |
| `Transmission.RepeatsOnceOnNak` | src/ebus/core/handler.cpp:637-668 | on every run, a first NAK has the whole part sent again, byte for byte and without a report; a second one has SYN written and one error reported |
| `Transmission.SpoiledRun` | src/ebus/core/handler.cpp:670-713 | a reply with too many data bytes, a wrong CRC or a wrong length is answered NAK and reported once with its flaw |
| `Transmission.RefusingStep` | src/ebus/core/handler.cpp:728-743 | the reply is awaited once more, and after a second refusal the bus released with one error |
| `Transmission.SenderCompletes` | src/ebus/core/handler.cpp:515-750 | a master-slave message that won writes exactly its part, again after a refusal, NAK to a spoiled reply, ACK and SYN, and is delivered once, whichever of the two attempts failed |
| `Transmission.SenderCompletesMaster` | src/ebus/core/handler.cpp:515-668 | likewise a master-master message |
| `Transmission.TwoSpoiledRepliesFail` | src/ebus/core/handler.cpp:670-743 | two spoiled replies end the exchange with NAK twice, SYN and one error for each and for giving up |
| `Addressee.GoodPartJudged` | src/ebus/core/handler.cpp:264-303 | a valid part is delivered at once, acknowledged or awaited, by its addressee |
| `Addressee.UnansweredRequest` | src/ebus/core/handler.cpp:279-300 | a request the callback does not answer with a slave part releases the bus with one error |
| `Addressee.BadPartJudged` | src/ebus/core/handler.cpp:304-333 | a bad part for one of our addresses is answered NAK and reported once; a bad broadcast is reported; any other waits for its acknowledge in silence |
| `Addressee.RefusalReadBack` | src/ebus/core/handler.cpp:462-475 | after a first refusal the node waits for one repetition, after a second it reports giving up |
| `Addressee.AddresseeAccepts` | src/ebus/core/handler.cpp:217-475 | a master-master message for us, after a bad attempt or not, is answered NAK and then ACK and delivered exactly once |
| `Addressee.ReplyAnswer` | src/ebus/core/handler.cpp:485-513 | what each answer to our reply leads to |
| `Observation.HeaderExactly` | src/ebus/core/handler.cpp:217-254 | a header byte is kept if and only if some valid master part goes on like this |
| `Observation.SynInsidePart` | src/ebus/core/handler.cpp:335-341 | a SYN inside a part is reported with what was buffered, and nothing of it is kept |
| `Observation.ForeignAnswer` | src/ebus/core/handler.cpp:344-374 | what each answer to a foreign valid part leads to |
| `Observation.RefusedTwice` | src/ebus/core/handler.cpp:344-374 | two foreign attempts that are not acknowledged are reported once, after the second |
| `Observation.BadPartDelivered` | src/ebus/core/handler.cpp:321-323 | a bad foreign master-master part is delivered all the same once it is acknowledged |
| `Observation.SpoiledIsReported` | src/ebus/core/handler.cpp:376-406 | a spoiled slave part is reported once with its flaw |
| `Observation.SlaveAnswer` | src/ebus/core/handler.cpp:408-433 | what each answer to an observed slave part leads to |
| `Losers.LosesOneByteIn` | src/ebus/core/handler.cpp:515-590 | losing with the winner's address, a node stands where a waiting node stands after that byte |
| `Losers.VerdictOnWinner` | src/ebus/core/request.cpp:134-212 | the arbiter's verdict on the address of another winner, by priority class and round |
| `Losers.LoserFollows` | src/ebus/core/handler.cpp:515-590 | a loser that keeps the byte delivers any foreign exchange of the winner just as a waiting node does |
| `Losers.LosersDeliver` | src/ebus/core/handler.cpp:217-590 | stepped with its own arbiter on the session, a loser delivers the winner's exchange in the first round if and only if its priority class is another, in the second round always |
| `Agreement.ResponderAccepts` | src/ebus/core/handler.cpp:276-292 | the addressed node acknowledges on the last byte of the master part |
| `Agreement.ObserverDelivers` | src/ebus/core/handler.cpp:408-418 | the observer delivers on the final acknowledge |
| `Agreement.ThreePartyAgreement` | src/ebus/core/handler.cpp:217-750 | for every valid message and reply, whichever nodes contended and in whichever round the sender won, the closed loop of three handlers puts exactly the exchange on the wire, each byte by one writer, each node delivers exactly one telegram with the same parts, and all end idle |
| `HandlerObject.HandlerMachine.Run` | src/ebus/core/handler.cpp:153-205 | the object's step equals the step function and keeps the invariant |
| `HandlerObject.HandlerMachine.TransitionTo` | src/ebus/core/handler.cpp:752-770 | an illegal transition is reported and forces the ground state |
| `HandlerObject.HandlerMachine.RunPassiveReceiveMaster` | src/ebus/core/handler.cpp:217-342 | the state method equals its function |
| `HandlerObject.HandlerMachine.CompleteMaster` | src/ebus/core/handler.cpp:262-334 | judging a complete part, with its second byte in range |
| `HandlerObject.HandlerMachine.RunPassiveReceiveMasterAcknowledge` | src/ebus/core/handler.cpp:344-374 | the state method equals its function |
| `HandlerObject.HandlerMachine.RunPassiveReceiveSlave` | src/ebus/core/handler.cpp:376-406 | the state method equals its function |
| `HandlerObject.HandlerMachine.RunPassiveReceiveSlaveAcknowledge` | src/ebus/core/handler.cpp:408-433 | the state method equals its function |
| `HandlerObject.HandlerMachine.RunReactiveSendMasterPositiveAcknowledge` | src/ebus/core/handler.cpp:435-460 | the state method equals its function |
| `HandlerObject.HandlerMachine.RunReactiveSendMasterNegativeAcknowledge` | src/ebus/core/handler.cpp:462-475 | the state method equals its function |
| `HandlerObject.HandlerMachine.RunReactiveSendSlave` | src/ebus/core/handler.cpp:477-483 | the state method equals its function |
| `HandlerObject.HandlerMachine.RunReactiveReceiveSlaveAcknowledge` | src/ebus/core/handler.cpp:485-513 | the state method equals its function, its unchecked read in range |
| `HandlerObject.HandlerMachine.RunRequestBus` | src/ebus/core/handler.cpp:515-590 | the state method equals its function |
| `HandlerObject.HandlerMachine.RunActiveSendMaster` | src/ebus/core/handler.cpp:592-635 | the state method equals its function |
| `HandlerObject.HandlerMachine.RunActiveReceiveMasterAcknowledge` | src/ebus/core/handler.cpp:637-668 | the state method equals its function, its unchecked read in range |
| `HandlerObject.HandlerMachine.RunActiveReceiveSlave` | src/ebus/core/handler.cpp:670-713 | the state method equals its function |
| `HandlerObject.HandlerMachine.RunActiveSendSlavePositiveAcknowledge` | src/ebus/core/handler.cpp:715-726 | the state method equals its function |
| `HandlerObject.HandlerMachine.RunActiveSendSlaveNegativeAcknowledge` | src/ebus/core/handler.cpp:728-743 | the state method equals its function |
| `HandlerObject.HandlerMachine.Send` | src/ebus/core/handler.cpp:134-151 | a message is accepted only if none is pending and it is valid |
| `HandlerObject.BuffersInRange` | src/ebus/core/handler.cpp:500-503 | the buffers read without a test are not empty |
| `BusHandler.VerdictDecides` | src/ebus/core/handler.cpp:552-589 | the state after a verdict follows the verdict |
| `BusHandler.JointStep` | src/ebus/core/bus_handler.cpp:34-58 | one bus event keeps arbiter and handler consistent |
| `BusHandler.TransmitsOnlyAfterOwnAddress` | src/ebus/core/bus_handler.cpp:34-58 | on every run from power-up a node starts to transmit exactly when it reads back its own address while arbitrating, and is never left waiting without an arbitration in progress |
| `BusHandler.MessageGoesOut` | src/ebus/core/bus_handler.cpp:34-58 | a waiting message requests the unlocked bus on the next SYN with its own address, and its second byte follows when the first is read back |
| `BusHandler.BusHandlerMachine.OnBusEvent` | src/ebus/core/bus_handler.cpp:34-58 | the composed object equals the composed step |
| `SynGenerator.SynTimer.ResetSynTimer` | src/ebus/platform/posix/bus_posix.cpp:306-322 | the timer after a byte was read |
| `SynGenerator.SynTimer.WriteByte` | src/ebus/platform/posix/bus_posix.cpp:189-200 | the timer after a byte was written |
| `SynGenerator.SynTimer.SynThreadTurn` | src/ebus/platform/posix/bus_posix.cpp:324-372 | one turn of the generator thread with carrier sense and fallback |
| `SynGenerator.CarrierIsSensed` | src/ebus/platform/posix/bus_posix.cpp:339-350 | no SYN is written within five milliseconds after a byte |
| `SynGenerator.PeriodAfterRead` | src/ebus/platform/posix/bus_posix.cpp:306-322 | the generator writes after 50 ms if it goes on generating, otherwise after 55 ms and 10 ms per address |
| `SynGenerator.DueOrPostponed` | src/ebus/platform/posix/bus_posix.cpp:324-350 | a due timer that senses the carrier waits two milliseconds more |
| `SynGenerator.GeneratorRepeats` | src/ebus/platform/posix/bus_posix.cpp:324-372 | a SYN read back is repeated 50 ms later; one that is lost, after the time of a silent bus |
| `SynGenerator.PersistentFires` | src/ebus/platform/posix/bus_posix.cpp:306-372 | a node that was generating when all read a SYN writes the next one on a timely run |
| `SynGenerator.LowestAloneExactly` | src/ebus/platform/posix/bus_posix.cpp:301-372 | after a common byte only the lowest address writes SYN on every timely run, if and only if no other node was generating when the byte was a SYN |
| `SynGenerator.OnlyTheLowestGenerates` | src/ebus/platform/posix/bus_posix.cpp:301-372 | on every timely run only the elected node writes SYN, and every other timer is reset before it expires |
| `Heap.CompareIsOrder` | src/ebus/app/scheduler.hpp:101-124 | the comparison is a strict weak ordering, total on distinct sessions |
| `Heap.LeadsIsPrecedes` | src/ebus/app/scheduler.hpp:101-124 | the comparison is: earlier window of two milliseconds, then higher priority, then older session |
| `Heap.FirstLeads` | src/ebus/app/scheduler.hpp:101-124 | nothing in a heap comes before its first element |
| `Heap.PushKeepsHeap` | src/ebus/app/scheduler.cpp:353-363 | push_heap keeps the heap |
| `Heap.PopKeepsHeap` | src/ebus/app/scheduler.cpp:238-241 | pop_heap keeps the heap |
| `Scheduler.SchedulerMachine.PushBounded` | src/ebus/app/scheduler.cpp:353-363 | a full queue takes nothing, otherwise the item joins the heap |
| `Scheduler.SchedulerMachine.EnqueueAt` | src/ebus/app/scheduler.cpp:299-310 | an item is queued under a fresh session, or 0 is returned |
| `Scheduler.SchedulerMachine.InjectProtocolEvent` | src/ebus/app/scheduler.cpp:166-210 | a report for the active session ends it or requeues it with backoff; any other is ignored |
| `Scheduler.SchedulerMachine.RunTick` | src/ebus/app/scheduler.cpp:212-284 | starts the first due item or reports a timeout |
| `Scheduler.SchedulerMachine.ClearAll` | src/ebus/app/scheduler.cpp:312-317 | queue and active attempt are emptied |
| `Scheduler.EnqueueQueues` | src/ebus/app/scheduler.cpp:299-310 | an accepted message is queued with its priority, due time and message under a fresh session |
| `Scheduler.InjectDecides` | src/ebus/app/scheduler.cpp:166-210 | a lost or transient report before the last attempt requeues the same message, one attempt further, its delay doubled each time; every other report but won ends the session; stale reports change nothing |
| `Scheduler.TickStartsTheFirst` | src/ebus/app/scheduler.cpp:235-245 | what is started is due, with nothing active and a free handler, and no queued item lies in an earlier window, has a higher priority in its window, or is older at the same priority |
| `Scheduler.TickWaits` | src/ebus/app/scheduler.cpp:212-245 | without a start nothing changes, and then nothing was first and due, or an attempt was running or the handler busy; a timeout is reported exactly after the total time |
| `Scheduler.ConservationAndBoundedRetry` | src/ebus/app/scheduler.cpp:166-317 | on every run each accepted session is in exactly one class, the queue is a heap of at most eight, and no session starts more often than allowed |
| `Devices.DeviceManager.UpdateEntry` | src/ebus/app/device_manager.cpp:47-68 | the map stays an injection into the used pool whose entries know their address; a known device is updated, a new one added while the pool has room, our own slave skipped |
| `Devices.DeviceManager.Update` | src/ebus/app/device_manager.cpp:18-79 | a telegram updates the entries of its source and then of its target and no others; the slave of its source and a slave target are observed from then on, with a monitor only |
| `Devices.InventoryExactly` | src/ebus/app/device_manager.cpp:18-79 | which devices a telegram shows, by their addresses, that each counts one message, and that only the target has answered |
| `Devices.DeviceManager.NextPendingVendorCommand` | src/ebus/app/device_manager.cpp:99-111 | finds the first missing vendor answer from the cursor on |
| `Devices.DeviceManager.FindNextPendingVendorCommand` | src/ebus/app/device_manager.cpp:113-123 | finds the first address with a missing vendor answer |
| `Devices.DeviceManager.NeedsDeepScan` | src/ebus/app/device_manager.cpp:131-134 | identified, and some answer from this address on is missing |
| `Devices.DeviceManager.DocumentedDeepScan` | src/ebus/app/device_manager.hpp:79-83 | the documented meaning holds exactly unless the device lacks nothing and a later one does |
| `Devices.ProfiledDeviceIsRequeued` | src/ebus/app/device_manager.cpp:131-134 | two telegrams after which the documented meaning fails |
| `Devices.IdentifiedByAnswer` | src/ebus/models/device.cpp:38-61 | a device is identified exactly by a non-empty answer to 07 04 |
| `Devices.AnswerClosesGap` | src/ebus/models/device.cpp:38-84 | storing the answer to a vendor query closes exactly that gap |
| `Scanner.DeviceScanner.ScanAddress` | src/ebus/app/device_scanner.cpp:301-311 | queues an address that is not our own and lifts its cooldown and quarantine |
| `Scanner.DeviceScanner.ScanObservedDevices` | src/ebus/app/device_scanner.cpp:97-112 | queues exactly the observed slaves other than our own, and lifts cooldown and quarantine of exactly those newly queued |
| `Scanner.DeviceScanner.OnScanResult` | src/ebus/app/device_scanner.cpp:242-270 | cooldown, quarantine after ten attempts, and chaining to the vendor queries |
| `Scanner.DeviceScanner.ForgiveOldFailures` | src/ebus/app/device_scanner.cpp:136-152 | cooldowns end exactly when their time is over, quarantines exactly after half an hour without a scan |
| `Scanner.DeviceScanner.DeepScan` | src/ebus/app/device_scanner.cpp:157-195 | returns a useful command for an askable address, or nothing when no deep scan is left; no queued address is lost unless it was asked or needs nothing |
| `Scanner.DeviceScanner.SurfaceScan` | src/ebus/app/device_scanner.cpp:199-219 | probes the next askable unidentified slave address and skips none |
| `Scanner.DeviceScanner.StartupScan` | src/ebus/app/device_scanner.cpp:221-236 | queues the observed devices when it is time and the limit is not reached |
| `Scanner.DeviceScanner.Turn` | src/ebus/app/device_scanner.cpp:133-238 | one turn: a queued address before a surface probe, and a probe only when not busy |
| `Scanner.DeviceScanner.NextCommand` | src/ebus/app/device_scanner.cpp:128-240 | always ends, never targets our own slave or an address in cooldown or quarantine, asks only what is unknown, and returns nothing only when no deep scan is left; before its time is over, an address in cooldown or quarantine is not asked unless a startup scan queued it anew |

## Left out

- Streaming.StreamingRefinesParse: requires properly stuffed bytes, as section 5.1 of the eBUS specification demands of every sender; the exact condition is proved for exchanges without a refused attempt only, because bad stuffing inside a refused attempt can shift the handler by a byte that the repetition makes good.
- Losers.LosersDeliver: covers exchanges without refused attempts, and does not say what a loser of the winner's class makes of data bytes that happen to look like a telegram of their own.
- HandlerRuns.EveryRun: assumes that a bus request completes only while arbitrating or while no master part is being received, and says nothing about the contents of passive master-master and master-slave telegrams, which the code delivers on the acknowledge alone.
- Agreement.ThreePartyAgreement: covers the exchange without repetitions, with one observer, a listener that contended having lost by keeping its byte; repetitions are covered for each role by ReplyDiscipline, ActiveExchangeEnds and StreamingDelivers.
- Request.WinnerWaits: counts the bytes since SYN as the node itself counts them, which restarts after a win.
- SynGenerator.OnlyTheLowestGenerates: a byte reaches all nodes at the same moment, and the latency is counted from the expiry of the elected node's timer.
- Scheduler.ConservationAndBoundedRetry: session numbers are unbounded, so their wrap-around after 2^32 messages is not modelled; neither is the overflow of a due time beyond the range of the clock.
- Parser.TelegramParser.SetMaster: takes its argument as a value, so reading the CRC one past the shrunk size of an aliased buffer becomes reading it before the shrink.
- The start-bit event of the bus, which clears buffers without changing state: the POSIX driver never raises it.
- Changing the source address or the own address while running.
- UART, interrupt, socket and thread code, the ESP32 driver, clocks and sleeping.
- The client manager and the enhanced protocol, the poll manager, JSON, configuration, status, metrics and logging.
- Conversion of data types and floating-point values.
- The simulator and the virtual bus, except the wired AND of simultaneous writers.
