# EM300 energy meter polling: a verified model

A Home Assistant integration polls Carlo Gavazzi EM300 and ET300 meters over Modbus. This
project models its whole way from "the registers that are wanted" to "the values that are
reported", and the state machines around it, and proves what they promise.

| file | models | main results |
|---|---|---|
| `Planner.dfy` | grouping word addresses into requests | one plan for each set of addresses; it covers exactly that set and no legal way of reading it is shorter |
| `Registers.dfy` | registers, series, batches | batches are planned, stable under replanning and minimal |
| `RegisterMap.dfy` | the polled map | the exact words and requests of a poll for every series |
| `Bits.dfy`, `Decoder.dfy` | Python's bit operations, decoding of words | a bijection between words and values, exact weights, serial number round trips |
| `Transport.dfy` | the client of one meter | what goes out and what comes back for every kind of reply |
| `Meter.dfy` | a memory that changes between requests, with the word at 0x000B overlaid | no value of a poll is ever torn |
| `LinkProtocol.dfy` | any number of tasks sharing the client's lock | mutual exclusion, replies to the right task, every returned batch made of snapshots within its call, all calls finish |
| `Device.dfy` | identification and polling | a poll fails or is complete and faithful |
| `Coordinator.dfy` | rate-limited reconnects | exact reconnect counts over every run |
| `EntryData.dfy`, `ConfigEntries.dfy` | setup, reconfiguration and creation of config entries | the remembered series and the meter's identity over every run |

The outside world appears as parameters: a client has a function that answers its k-th
transaction and one that decides its k-th attempt to connect. Both may be anything, so every
statement about them holds for every behaviour of the link. Statements about the memory of the
meter assume only that a response of the length asked for carries the words of one memory
state; failures, missing responses and responses of any other length are always possible.

A call of the client starts when the lock is free, because the real one waits until it is;
what the waiting does when several tasks compete is the subject of `LinkProtocol.dfy`, which
uses the same interpretation of replies. The frame limits follow sections 6.3 and 6.6 of the
MODBUS Application Protocol Specification V1.1b3, narrowed to 20 words as the source does.

The unique id of an entry is a constant of its class, so no operation can change it.

Where the code and its documentation differ, the model follows the code. The repository's
README says that a meter that fails the identification read once keeps the entity set it had.
That holds for setups, but a successful reconfiguration overwrites the remembered series with
whatever its probe found, possibly nothing: `ConfigEntries.MemoryIsLostExactly` says exactly
when the memory is lost and `ConfigEntries.OneFailedProbeForgets` gives a case. The comment on
the reconnect interval in `coordinator.py` speaks of consecutive failures; the code counts the
failed reads since the last poll with data (`Coordinator.CountIsFailuresSinceGood`).
`Coordinator.CountIsConsecutive` says exactly when the two agree and
`Coordinator.EscapeKeepsTheCount` gives a run on which they do not.

Most lemmas carry `{:induction false}`: what they need of an induction is written in their body.

## Model

| member | source | states |
|---|---|---|
| `Planner.SplitAddresses` | custom_components/carlo_gavazzi_em300/api/batch.py:25-51 | The reads returned for any addresses and any cap of at least 1 are in increasing order, disjoint, between 1 and the cap long, cover exactly the given addresses, and stop only at the cap or at a gap. A cap of 0 raises unless there is nothing to read; a negative cap drops every address. |
| `Planner.SortedDistinct` | custom_components/carlo_gavazzi_em300/api/batch.py:36-38 | Sorting removes duplicates and neither adds nor loses an address. |
| `Planner.ChunksArePlan` | custom_components/carlo_gavazzi_em300/api/batch.py:54-60 | Chopping a run at multiples of the cap covers the run exactly, with every chunk but the last one full. |
| `Planner.PlanIsMinimal` | custom_components/carlo_gavazzi_em300/api/batch.py:4-6 | No list of reads that covers the addresses, stays inside them and respects the cap is shorter than the plan, even if its reads overlap. |
| `Planner.PlanIsUnique` | custom_components/carlo_gavazzi_em300/api/batch.py:25-36 | The set of addresses and the cap leave only one plan, so order and repetition of the input do not matter. |
| `Planner.ReadsStartEven` | custom_components/carlo_gavazzi_em300/api/batch.py:54-60 | With an even cap and runs that start at even addresses every read starts at an even address. |
| `Planner.EvenPairsAreNotSplit` | custom_components/carlo_gavazzi_em300/api/batch.py:54-60 | Under the same conditions two words at an even address always travel in one request. |
| `Registers.MakeRegister` | custom_components/carlo_gavazzi_em300/api/models.py:123-142 | A register can be built exactly when its length is left to a fixed-width type, equals that type's width, or is a positive explicit length of a string; then it has that length. |
| `Registers.Slot.Addresses` | custom_components/carlo_gavazzi_em300/api/models.py:144-148 | A register of n words spans n addresses from its own. |
| `Registers.SeriesFromValue` | custom_components/carlo_gavazzi_em300/api/models.py:57-69 | A stored text reads back as a series exactly when it is that series' name; anything else reads as not identified. |
| `Registers.StoredNames` | custom_components/carlo_gavazzi_em300/api/models.py:57-69 | The stored texts EM330, EM331, EM340, EM341, ET330 and ET340 are the series of these names. |
| `Registers.BatchWords` | custom_components/carlo_gavazzi_em300/api/batch.py:74-81 | The planned words are all words of the registers that are not standalone, and no others. |
| `Registers.NewRegisterBatch` | custom_components/carlo_gavazzi_em300/api/batch.py:70-82 | A batch keeps its registers for decoding and carries the plan of their words with the frame limit of 20. |
| `Registers.CoveredAddresses` | custom_components/carlo_gavazzi_em300/api/batch.py:84-91 | The addresses of a batch are those some read of it contains. |
| `Registers.ReplanningIsStable` | custom_components/carlo_gavazzi_em300/api/batch.py:82-91 | The addresses a batch covers are its registers' words, and planning them again gives the same requests. |
| `Registers.BatchIsMinimal` | custom_components/carlo_gavazzi_em300/api/batch.py:3-6 | No other way of reading a batch's words, and only those, within the frame limit takes fewer requests. |
| `RegisterMap.SupportedRegisters` | custom_components/carlo_gavazzi_em300/api/device.py:107-109 | The polled registers are those of the map that carry a value on the series, and all of them when the series is unknown. |
| `RegisterMap.PolledNamesAreUnique` | custom_components/carlo_gavazzi_em300/api/register_map.py:205-252 | Whatever the series, no two polled registers share a name. |
| `RegisterMap.PolledWords` | custom_components/carlo_gavazzi_em300/api/register_map.py:76-141 | For every series the polled words are exactly four address blocks, the last two only on the series that carry them. |
| `RegisterMap.PolledRegistersAreAligned` | custom_components/carlo_gavazzi_em300/api/register_map.py:76-141 | Every polled register is one word or two words at an even address, and none is standalone. |
| `RegisterMap.PollPlan` | custom_components/carlo_gavazzi_em300/api/register_map.py:205-252 | The requests of a poll are these five to seven, by series: every batch planned for the polled registers has them. |
| `RegisterMap.PollRequestsBySeries` | custom_components/carlo_gavazzi_em300/api/register_map.py:205-252 | Written out: seven requests for the ET series and an unknown meter, six for the EM330, five for every other series. |
| `RegisterMap.PolledWeights` | custom_components/carlo_gavazzi_em300/api/register_map.py:36-47 | Every polled register is numeric and its weight, if any, is 10, 100 or 1000. |
| `Decoder.ToSignedIsTwosComplement` | custom_components/carlo_gavazzi_em300/api/utils.py:34-37 | For every integer and width, the two masks give the one number of the signed range that is congruent to it. |
| `Decoder.FoldWords` | custom_components/carlo_gavazzi_em300/api/utils.py:78-80 | Folding the words last to first with shifts and ors gives their little-endian number. |
| `Decoder.WordOrderMatters` | custom_components/carlo_gavazzi_em300/api/utils.py:3-8 | Reading the words in reverse order gives the same number only when they are a palindrome; for two words, only when they are equal. |
| `Decoder.DecodeAfterEncode` | custom_components/carlo_gavazzi_em300/api/utils.py:76-85 | Any value a type of n words can hold survives being laid out least significant word first and decoded. |
| `Decoder.EncodeAfterDecode` | custom_components/carlo_gavazzi_em300/api/utils.py:76-85 | Any list of words is recovered by laying out the value it decodes to. |
| `Decoder.RawValueIsRepresentable` | custom_components/carlo_gavazzi_em300/api/utils.py:84-85 | A decoded value lies in its type's range and is congruent to the words' number. |
| `Decoder.RawValueByType` | custom_components/carlo_gavazzi_em300/api/utils.py:73-85 | Written out for each type: the first word counts least, and the top bit of the last word counts negatively exactly in INT16, INT32 and INT64. |
| `Decoder.DecodedWithoutWeight` | custom_components/carlo_gavazzi_em300/api/utils.py:56-85 | A register without a weight is its words' number or text, and nothing when any of its words is missing. |
| `Decoder.ScaledByWeight` | custom_components/carlo_gavazzi_em300/api/utils.py:87-89 | A weight gives the quotient of the unweighted value, rounded to the nearest millionth; a weight of zero counts as none. |
| `Decoder.RoundHalfEven` | custom_components/carlo_gavazzi_em300/api/utils.py:88-88 | Rounding goes to the nearest integer and to the even one of two. |
| `Decoder.ScalingIsExact` | custom_components/carlo_gavazzi_em300/api/utils.py:87-88 | For every weight that divides a million, such as those of the map, rounding to six decimals loses nothing and the raw integer can be recovered. |
| `Decoder.ScalingIsFaithful` | custom_components/carlo_gavazzi_em300/api/utils.py:87-88 | For any positive weight scaling is monotone and within half a millionth of the quotient. |
| `Decoder.SerialText` | custom_components/carlo_gavazzi_em300/api/utils.py:40-53 | A decoded string is printable ASCII without a space at either end, and is empty exactly when no word carries a visible character. |
| `Decoder.PaddedSerialRoundTrip` | custom_components/carlo_gavazzi_em300/api/utils.py:43-49 | A trimmed printable serial number is recovered from a block padded on either side with NULs, spaces or control characters, whatever the high bytes are. |
| `Decoder.HighBytesDoNotMatter` | custom_components/carlo_gavazzi_em300/api/utils.py:43-44 | Two blocks that agree in the low bytes decode to the same string. |
| `Decoder.UnprintableWordsDropOut` | custom_components/carlo_gavazzi_em300/api/utils.py:43-53 | Leaving out a word without a printable character changes nothing, also in the middle of the text. |
| `Decoder.DecodeRegister` | custom_components/carlo_gavazzi_em300/api/utils.py:56-89 | The value is nothing when a word is missing, and otherwise what the words mean as a little-endian, two's complement, weighted number or as text. |
| `Decoder.DecodeRegisters` | custom_components/carlo_gavazzi_em300/api/utils.py:92-108 | The mapping holds every register that decodes, taken in order. |
| `Decoder.DecodedNames` | custom_components/carlo_gavazzi_em300/api/utils.py:98-108 | A name is present exactly when some register of that name has all of its words. |
| `Decoder.LastOneWins` | custom_components/carlo_gavazzi_em300/api/utils.py:103-106 | Of several registers with one name the last that decodes gives the value. |
| `Decoder.DecodedValues` | custom_components/carlo_gavazzi_em300/api/utils.py:103-108 | With unique names each name holds its own register's value. |
| `Decoder.MissingWordsAreLocal` | custom_components/carlo_gavazzi_em300/api/utils.py:62-63 | Removing words from a response drops exactly the registers that span one of them and leaves every other value alone. |
| `Transport.Masked` | custom_components/carlo_gavazzi_em300/api/client.py:119-119 | The value that is written is the payload modulo 65536, for negative payloads too. |
| `Transport.Em300Client.constructor` | custom_components/carlo_gavazzi_em300/api/client.py:51-54 | A new client holds no lock. |
| `Transport.Em300Client.Connect` | custom_components/carlo_gavazzi_em300/api/client.py:56-58 | One attempt is made and its exception, if any, passes through. |
| `Transport.Em300Client.ReadHoldingRegisters` | custom_components/carlo_gavazzi_em300/api/client.py:68-95 | One request goes out; the result is keyed by absolute address when the response has the length asked for, an error in every other case, and the lock is released either way. |
| `Transport.Em300Client.ReadHoldingRegister` | custom_components/carlo_gavazzi_em300/api/client.py:97-103 | A one-word read returns that word or the same errors. |
| `Transport.Em300Client.ReadBatch` | custom_components/carlo_gavazzi_em300/api/client.py:105-110 | The reads are sent in order until one fails, the words of a successful batch are merged, and the lock is free again at the end. |
| `Transport.Em300Client.WriteRegister` | custom_components/carlo_gavazzi_em300/api/client.py:112-123 | The low 16 bits are sent; the write succeeds exactly when it is acknowledged, and fails with the raised exception or the integration's own; the lock is released either way. |
| `Transport.FailureIsFinal` | custom_components/carlo_gavazzi_em300/api/client.py:105-110 | Once a read has failed the rest of the batch changes neither its result nor what is sent. |
| `Transport.BatchSucceedsExactly` | custom_components/carlo_gavazzi_em300/api/client.py:89-110 | A batch succeeds exactly when each of its requests gets an answer of the length asked for. |
| `Transport.FirstFailureDecides` | custom_components/carlo_gavazzi_em300/api/client.py:84-110 | The first reply that is no such answer decides the error, which is the raised exception or the integration's own, and nothing is sent after its request. |
| `Transport.FailingReadIsLast` | custom_components/carlo_gavazzi_em300/api/client.py:105-110 | Every failed batch has such a reply: it is the one to the last request sent, and all before it are answers of their lengths. |
| `Meter.FaithfulReadIsSnapshot` | custom_components/carlo_gavazzi_em300/api/client.py:89-95 | A read that succeeds returns the words of one memory state, keyed by address; the word at 0x000B read alone is the identification code. |
| `Meter.AssembledCover` | custom_components/carlo_gavazzi_em300/api/client.py:105-110 | What a list of reads collects, overlapping or not, is exactly their words. |
| `Meter.AssembledWord` | custom_components/carlo_gavazzi_em300/api/client.py:105-110 | Each of these words comes from the state that the last read containing it saw. |
| `Meter.OrderedWord` | custom_components/carlo_gavazzi_em300/api/client.py:105-110 | In an ordered plan each word comes from the state its own read saw. |
| `Meter.BatchIsAssembled` | custom_components/carlo_gavazzi_em300/api/client.py:105-110 | A batch that succeeds against a changing meter has collected one snapshot per read. |
| `Meter.StoredValueIsReported` | custom_components/carlo_gavazzi_em300/api/utils.py:76-89 | An integer the meter stores in a register with one of the map's weights is reported as exactly that integer divided by the weight. |
| `Meter.RegisterInOneRead` | custom_components/carlo_gavazzi_em300/api/batch.py:54-60 | Every aligned register lies in one single request. |
| `Meter.PollNeverReadsTheCode` | custom_components/carlo_gavazzi_em300/api/register_map.py:155-163 | No request of any poll reads the word at 0x000B on its own. |
| `Meter.EverySeriesIsPollable` | custom_components/carlo_gavazzi_em300/api/register_map.py:76-163 | For every series and for an unknown meter, the polled map meets the conditions under which no value can be torn, and no request of its plan asks for the identification code. |
| `Meter.NoTornValues` | custom_components/carlo_gavazzi_em300/api/device.py:166-169 | For any batch of aligned registers with even run starts, and any change of the memory between requests, a poll names every register once and gives each the value it had in one single state. |
| `Meter.FixedMemory` | custom_components/carlo_gavazzi_em300/api/device.py:166-169 | On an unchanging memory any planned list without standalone registers, however aligned, decodes to what its registers are worth there. |
| `Meter.PolledValueIsReported` | custom_components/carlo_gavazzi_em300/api/utils.py:76-89 | For every series and every register that is polled for it, an integer the meter stores there is reported as exactly that integer divided by the register's weight. |
| `LinkProtocol.NextKeepsInv` | custom_components/carlo_gavazzi_em300/api/client.py:68-120 | Every step of any task, of the meter or of its memory keeps the lock, the link and all collected values consistent. |
| `LinkProtocol.RunKeepsInv` | custom_components/carlo_gavazzi_em300/api/client.py:68-120 | The same holds in every state of every run, for any number of tasks and any calls. |
| `LinkProtocol.OneTransactionAtATime` | custom_components/carlo_gavazzi_em300/api/client.py:3-7 | In every reachable state the link is intact, at most one task is in a transaction, and the lock is held exactly while one is. |
| `LinkProtocol.ReplyGoesToAsker` | custom_components/carlo_gavazzi_em300/api/client.py:76-79 | A task only receives a reply to the very request it waits for. |
| `LinkProtocol.ReturnedValues` | custom_components/carlo_gavazzi_em300/api/client.py:105-110 | The values of a returned read are the snapshots of its requests, taken in order and within the call. |
| `LinkProtocol.BatchReturnsItsWords` | custom_components/carlo_gavazzi_em300/api/client.py:105-110 | Under any interleaving a returned batch maps exactly the union of its ranges, each word as the meter held it at some moment of the call. |
| `LinkProtocol.SingleReturnsItsWord` | custom_components/carlo_gavazzi_em300/api/client.py:97-103 | A returned single read maps its address to the word the meter held at some moment of the call. |
| `LinkProtocol.WriteTakesEffect` | custom_components/carlo_gavazzi_em300/api/client.py:112-123 | A write that returns has put the low 16 bits of its payload into the memory during the call. |
| `LinkProtocol.ReplyFails` | custom_components/carlo_gavazzi_em300/api/client.py:84-123 | A reply is an error exactly when it is raised, missing, rejecting, or an answer to a read of another length than asked for. |
| `LinkProtocol.FailedCallHasCause` | custom_components/carlo_gavazzi_em300/api/client.py:84-95 | A call that has failed, under any interleaving, received at some step of the run a reply of that kind to its own next request, given within the call, and failed with the exception that was raised or the integration's own; all requests before that one succeeded in states of the call. |
| `LinkProtocol.PollIsNeverTorn` | custom_components/carlo_gavazzi_em300/api/device.py:166-169 | A poll interleaved with any other calls gives every register its value in one single state within the poll. |
| `LinkProtocol.StepsDecreaseMeasure` | custom_components/carlo_gavazzi_em300/api/client.py:68-120 | Every step except a change of the memory brings the calls closer to their end. |
| `LinkProtocol.RunsAreBounded` | custom_components/carlo_gavazzi_em300/api/client.py:68-120 | The number of such steps in a run is bounded by what the calls need in the beginning. |
| `LinkProtocol.SomeStepIsPossible` | custom_components/carlo_gavazzi_em300/api/client.py:68-120 | While a call is unfinished some task or the meter can take a step: the lock cannot deadlock. |
| `LinkProtocol.AllCallsFinish` | custom_components/carlo_gavazzi_em300/api/client.py:68-120 | When no such step is left every call has finished, the lock is free and the link is idle. |
| `Device.Em300Device.constructor` | custom_components/carlo_gavazzi_em300/api/device.py:54-59 | A new device polls the full map with its plan. |
| `Device.Em300Device.ReadIdentificationCode` | custom_components/carlo_gavazzi_em300/api/device.py:122-130 | The code is read as one single word; tolerated failures read as no code and any other exception passes through. |
| `Device.Em300Device.ReadSerialNumber` | custom_components/carlo_gavazzi_em300/api/device.py:132-143 | The seven words become trimmed text; an empty text and a tolerated failure read as no serial number. |
| `Device.Em300Device.ReadFirmware` | custom_components/carlo_gavazzi_em300/api/device.py:145-164 | Both words come from one request and give the version letter and the revision. |
| `Device.FirmwarePlan` | custom_components/carlo_gavazzi_em300/api/device.py:151-154 | The two firmware words are planned as one request. |
| `Device.Em300Device.Identify` | custom_components/carlo_gavazzi_em300/api/device.py:74-120 | The three identity reads are sent in order and tolerated one by one; the code decides the series and the fallback stands in only for a missing or unknown code; registers and plan follow the series; an exception that is not tolerated leaves the device as it was. |
| `Device.IdentificationIsCutShort` | custom_components/carlo_gavazzi_em300/api/device.py:122-164 | The identification asks for one word at 0x000B, seven at 0x5000 and two at 0x0302, and fails exactly when one of the three requests raises an exception that is not tolerated. |
| `Device.CodeDecidesSeries` | custom_components/carlo_gavazzi_em300/api/device.py:88-91 | The code is the one word of the first reply; each of the nine listed codes decides its series, and without a code or with any other the fallback stands in. |
| `Device.SerialIsReported` | custom_components/carlo_gavazzi_em300/api/device.py:132-143 | A serial number in the second reply is reported as it is, wherever it stands between padding and whatever the high bytes are. |
| `Device.SerialIsMissing` | custom_components/carlo_gavazzi_em300/api/device.py:132-143 | No serial number is reported exactly when the second reply is not an answer of seven words or is only padding. |
| `Device.FirmwareIsReported` | custom_components/carlo_gavazzi_em300/api/device.py:145-164 | The third reply gives the letter, counted from A, and the revision, in this order; any other reply gives none. |
| `Device.Em300Device.ReadAll` | custom_components/carlo_gavazzi_em300/api/device.py:166-169 | A poll sends the planned requests, succeeds exactly when all of them are answered with their lengths, and decodes the registers of the batch. |
| `Device.PollSucceedsExactly` | custom_components/carlo_gavazzi_em300/api/device.py:166-169 | A poll succeeds exactly when each planned request gets an answer of its length, whatever the words are, and has then sent them all. |
| `Device.PollFailsExactly` | custom_components/carlo_gavazzi_em300/api/device.py:166-169 | Otherwise the first other reply decides the error and its request is the last one sent. |
| `Device.IdentifySeesTheCode` | custom_components/carlo_gavazzi_em300/api/register_map.py:155-163 | Against a meter with the overlaid word identification always sees the code, whenever it is answered at all. |
| `Device.ReportedSerial` | custom_components/carlo_gavazzi_em300/api/device.py:142-143 | A reported serial number is never empty or padded, and none is reported exactly for a block of padding. |
| `Device.PolledNames` | custom_components/carlo_gavazzi_em300/api/device.py:166-169 | Whatever the meter does, a poll that succeeds names exactly the registers all of whose words are planned; a standalone register appears only if others bring in its words. |
| `Device.PollIsComplete` | custom_components/carlo_gavazzi_em300/api/device.py:166-169 | Without standalone registers every register has an entry, and the result is empty only when there is nothing to poll. |
| `Device.PollIsFaithful` | custom_components/carlo_gavazzi_em300/api/device.py:166-169 | A poll fails, or names every register once with its value in one memory state among those its own requests saw. |
| `Device.PollRefinesDirectReads` | custom_components/carlo_gavazzi_em300/api/device.py:166-169 | On a fixed memory a poll fails or equals decoding every register straight from the memory. |
| `Coordinator.Em300Coordinator.UpdateData` | custom_components/carlo_gavazzi_em300/coordinator.py:75-115 | A poll that ends in the integration's own exception, an operating system error or a timeout is reported as a failed read, adds one to the count and reconnects when the count was a multiple of ten; any other exception escapes and an empty poll is reported as no data, and neither changes the count; a poll with data is passed on and resets it. The reconnects follow the run of outcomes, and a device that polls its map never reports no data. |
| `Coordinator.OutcomeByResult` | custom_components/carlo_gavazzi_em300/coordinator.py:81-103 | Which polls are good, empty, failed reads or escaping exceptions, for every kind of exception. |
| `Coordinator.OutcomesAreCounted` | custom_components/carlo_gavazzi_em300/coordinator.py:83-108 | The failed reads and the good polls of a run are counted one by one. |
| `Coordinator.CountIsFailuresSinceGood` | custom_components/carlo_gavazzi_em300/coordinator.py:83-108 | In every run the count is the number of failed reads since the last poll with data. |
| `Coordinator.ReconnectRule` | custom_components/carlo_gavazzi_em300/coordinator.py:23-26 | A poll reconnects exactly when it is the first, eleventh, twenty-first and so on failed read since the last poll with data. |
| `Coordinator.ReconnectsInStretch` | custom_components/carlo_gavazzi_em300/coordinator.py:23-26 | k failed reads without a good poll between them make ceil(k/10) reconnects. |
| `Coordinator.ReconnectsAreBounded` | custom_components/carlo_gavazzi_em300/coordinator.py:23-26 | Over any run ten times the reconnects lie between the failed reads and the failed reads plus nine for each stretch between good polls, and there are no more reconnects than failed reads. |
| `Coordinator.CountIsConsecutive` | custom_components/carlo_gavazzi_em300/coordinator.py:23-26 | The count is that of consecutive failed reads exactly when no empty poll and no escaping exception has come after a failed read since the last poll with data. |
| `Coordinator.EscapeKeepsTheCount` | custom_components/carlo_gavazzi_em300/coordinator.py:83-108 | A failed read, an escaping exception and a failed read make a count of two although only one failed read is consecutive, and the last one does not reconnect. |
| `Coordinator.NoDataIsUnreachable` | custom_components/carlo_gavazzi_em300/coordinator.py:93-100 | A poll of any planned list of registers that is not empty and has no standalone register never succeeds without data. |
| `EntryData.DecimalIsInjective` | custom_components/carlo_gavazzi_em300/config_flow.py:340-343 | Different numbers print differently. |
| `EntryData.FallbackIdsAreInjective` | custom_components/carlo_gavazzi_em300/config_flow.py:332-343 | Within one transport equal fallback ids mean the same port or host, the same TCP port and the same stored address, a missing address being 1, even when the path or host contains colons. |
| `ConfigEntries.SetupEntry` | custom_components/carlo_gavazzi_em300/__init__.py:21-56 | Setup succeeds exactly when the meter is identified and each request of the first poll, which are those of the series in use, gets an answer of its length. Otherwise it reports the exception that cut the identification short or what the first failing reply makes, and closes the connection; the series is remembered before that poll. |
| `ConfigEntries.RememberSeries` | custom_components/carlo_gavazzi_em300/__init__.py:76-95 | A series that was identified is the remembered one afterwards, an unidentified one changes nothing, and no other setting changes. |
| `ConfigEntries.Probe` | custom_components/carlo_gavazzi_em300/config_flow.py:256-267 | The probe reports what the meter answered, without a fallback, exactly when no exception cuts it short, and always closes the connection. |
| `ConfigEntries.ReconfigureEntry` | custom_components/carlo_gavazzi_em300/config_flow.py:298-330 | A meter is refused exactly when a serial number is stored (neither missing nor empty) that is not the one it reports, and the entry then keeps all of its data; otherwise the entry has the meter's report and the form's settings afterwards, and keeps every other setting. |
| `ConfigEntries.StepReconfigure` | custom_components/carlo_gavazzi_em300/config_flow.py:215-254 | The flow ends at the port, at the connection, as a wrong meter or in success, and exactly when: a meter that was identified is accepted unless a stored serial number is not the one it reports. The entry then has the serial number and the series of the meter's own answers; in every other case its data is unchanged. |
| `ConfigEntries.RefusedExactly` | custom_components/carlo_gavazzi_em300/config_flow.py:314-317 | A stored item refuses a meter exactly when it is not nothing, the empty text or zero, and is not the text of the serial number the meter reports. |
| `ConfigEntries.Registry.StepUser` | custom_components/carlo_gavazzi_em300/config_flow.py:215-254 | The flow gets as far as the entry exactly when the meter was identified and says otherwise how it failed; a new entry stands for what the meter answered, no two entries ever share a unique id and existing entries are untouched. |
| `ConfigEntries.Registry.CreateEntry` | custom_components/carlo_gavazzi_em300/config_flow.py:269-296 | The flow is aborted exactly when the serial number, or else the fallback id, is the unique id of an entry already; otherwise one entry is added that has it and keeps the meter's serial number, its series and the form's settings. |
| `ConfigEntries.SetupKeepsTheRest` | custom_components/carlo_gavazzi_em300/__init__.py:76-95 | A setup never changes any other setting, and with a missing or unknown code it changes nothing at all. |
| `ConfigEntries.SeriesMemory` | custom_components/carlo_gavazzi_em300/__init__.py:76-95 | After any run the remembered series is that of the last setup that recognised the meter or the last successful reconfiguration. |
| `ConfigEntries.SeriesUntouched` | custom_components/carlo_gavazzi_em300/__init__.py:76-95 | Without such an event the stored series stays exactly as it was, recognisable or not. |
| `ConfigEntries.PolledSetOverRuns` | custom_components/carlo_gavazzi_em300/__init__.py:34-38 | After any run a setup polls the map for its own code's series, else the last decided one, else the one stored in the beginning. |
| `ConfigEntries.MemoryIsLostExactly` | custom_components/carlo_gavazzi_em300/config_flow.py:288-296 | A remembered series is lost exactly in a successful reconfiguration whose probe did not recognise the meter. |
| `ConfigEntries.OneFailedProbeForgets` | custom_components/carlo_gavazzi_em300/config_flow.py:265-265 | An EM340 without a serial number, reconfigured with its own settings while the reply to the first request is missing, is accepted and forgotten, and the next setup that misses the code takes it for an unknown meter. |
| `ConfigEntries.SerialIsWriteOnce` | custom_components/carlo_gavazzi_em300/config_flow.py:316-330 | Over any run, whatever the meters report, an item stored as serial number that is not nothing, empty or zero stays stored as it is. |
| `ConfigEntries.SerialStaysText` | custom_components/carlo_gavazzi_em300/config_flow.py:287-330 | What is stored as serial number is a text or nothing after any run that started so. |

## Left out

- Device.Em300Device.ReadFirmware: the version letter is kept as a code point next to the revision instead of one string, because version codes reach code points that are not characters.
- Decoder.ScalingIsExact: rounding is stated for exact numbers; the error of the binary floating point division is not modelled.
- Decoder.ScalingIsFaithful: as for `Decoder.ScalingIsExact`.
- EntryData.ModelOf: display names are built as the source builds them, but no property of their wording is stated.
- LinkProtocol.AllCallsFinish: the order in which waiting tasks get the lock is left open, so it says that all calls finish but not who goes first; cancelled tasks are not modelled.
- LinkProtocol.WriteTakesEffect: a write that fails may still have been made; it counts as a change of the memory.
- Meter.NoTornValues: the pre-production meters that store the most significant word first (code 340) decode wrongly, as the source says; `Decoder.WordOrderMatters` says when that shows.
- Planner.SplitAddresses: a negative cap is modelled as the code behaves, dropping all addresses, although no caller uses one.
- pymodbus, sockets, serial ports, framing, checksums, the unit id and the check of the serial port's path.
- Forms, menus, selectors, translations, entities, the device registry, titles, unloading and options of the integration.
- Default lookups in `connection.py`, `const.py` and `options_flow.py`, and log messages.
- Fallback ids of different transports that coincide, and two entries of one meter: the code does not exclude them.
- The agreement of each row of the register map with the vendor's tables; only what the plan and the decoder need of it is proved.
