# A verified model of the miIO chip firmware

These Dafny files model the algorithms and protocols that the miIO Wi-Fi firmware
implements itself, beside the vendor SDK, and prove what they promise:

- **The JSON stack** (`CText`, `Jsmn`, `JsmnResume`, `JsmnInvariant`, `JsmnGrammar`, `JsmnNavigate`,
  `StringEscape`, `StringSpelling`, `JsonPrint`, `JsonLookup`, `Messages`): the resumable tokenizer, what
  its token array looks like after any call on any input and which characters its tokens span, stopping and resuming, the navigator that walks subtrees by child
  counts, the escaping of string leaves, and the round trip from a JSON tree with any layout and any
  spelling of its strings through printing, tokenizing, looking a key up and reading its text back.
- **The up-link property manager** (`UpLink`, `UpLinkCheck`, `UpLinkRuns`, `UpLinkHistory`, `ValueJson`,
  `PropertyJson`): the value check, packing into a bounded message, sessions, late answers and
  retries; over every run the status and the cooldown of every property are what an observer of the
  events computes, and which values and which messages are JSON.
- **The XMODEM sender** (`Crc16`, `Crc16Division`, `Xmodem`, `XmodemRuns`, `XmodemLine`, `XmodemReceiver`,
  `XmodemFeeders`): both builds of the CRC and the polynomial division they compute, the
  stop-and-wait exchange over an arbitrary reply line, byte by byte, sender and receiver together over a lossy
  channel, and the two programs that cut an image into calls.
- **The storage converter** (`PsmFormats`, `PsmConvert`, `PsmRecovery`, `PsmLayout`): a change of format that
  keeps the meaning exactly when the entries fit, and what power failures leave behind.
- **The down-command life cycle** (`JsonCommand`, `PrintedCommand`, `DownCommand`, `DownRuns`,
  `DownLines`): a command split in its own buffer, bounded queue, one outstanding command, time limits, and
  acknowledgements that happen exactly once.
- **Tables and arithmetic** (`BitSequence`, `Crc8`, `Crc8Default`, `Limbs`, `DecimalText`, `Printf`,
  `PrintfBound`, `PrintfFields`, `HexText`, `HexLayout`): CRC-8 tables for every polynomial, multi-word products, the bounded
  formatter, decimal and hexadecimal text.
- **Clocks** (`LocalTimer`, `TimerRuns`, `TimerHistory`, `Ticks`): weekly and one-shot timers over whole runs of
  checks, and the extension of a tick counter that wraps.

Code that changes state is modelled by classes and methods with loops (the parser object and its
token array, the manager, the sender, the flash, the command slot, the timer slots); each such
method is proved against a specification function, and the theorems are lemmas about those
functions over all inputs or all runs.

`dafny verify dfyconfig.toml` checks the whole project.

## Conventions

- A C string is a Dafny `string`; reading behind it gives the NUL. A returned pointer into an array
  is an index, NULL is -1.
- 32-bit counters, 8-bit block numbers, the signed char of a token's child count and 16-bit lengths
  wrap where the C types wrap. Positions in a text are unbounded; `JsmnInvariant.FieldsFit` shows
  that they fit the signed shorts of the token for texts of at most 32767 characters.
- Clocks, reply lines, flash reads, online states and the bytes left in uninitialised variables are
  parameters: every theorem holds for all of them.

## What turned out not to hold, and when it does

- A document that is one bare literal with nothing behind it is never finished by the strict build:
  `JsonPrint.PrintThenParse` gives both cases.
- A part of a text that is NUL-terminated between a backslash and the character after it is refused,
  where the same part with the rest behind it would be waited for. `JsmnResume.TerminatedPart` says
  that this is the only difference, and the parser state is the same.
- The value check lets through values that are not JSON: exactly those with other control characters
  than blanks around them, and strings with a broken escape (`ValueJson.ValueIsJson`,
  `ValueJson.OpenEscape`, `ValueJson.ControlBefore`). JSON is meant as the tokenizer takes it, where a
  lone minus is a number; `ValueJson.NumberIsRfc` says which of the numbers are standard ones.
- A property message is JSON exactly when all its values are and it was not cut
  (`PropertyJson.MessageIsJson`, with `PropertyJson.SpoiledMessage` and `PropertyJson.CutMessage`):
  not cut means that the items left three bytes, one more than the packing guarantees
  (`UpLink.ClosingBraces`).
- An answer whose arguments are texts of JSON values is JSON exactly when it was not cut
  (`Messages.ResultIsJson`, `Messages.ErrorIsJson`); the arguments themselves are passed on unchecked.
- A late answer could be taken for a newer message after 2^32 - 1 further sessions; the bound in
  `UpLinkRuns.AlwaysSafe` is tight (`UpLinkRuns.BoundIsTight`).
- The storage converter keeps the meaning exactly when all entries fit in one partition and no name
  is longer than 255 bytes (`PsmConvert.MeaningIsKept`); with an entry that lacks its equals sign,
  when moreover the bytes it leaves behind say nothing (`PsmConvert.MeaningBegins`).
- A power failure while the backup is being made can lose entries, in exactly the cases of
  `PsmRecovery.FirstStartRecovers` (`PsmRecovery.CutLosesEntry` is one). With a variable block whose
  checksum is wrong the second start loses what the valid blocks behind it say, and nothing if they say
  nothing (`PsmRecovery.BadBlockLoses`).
- A download is reported as a success exactly when the blocks before the closing call are through
  (`XmodemFeeders.ReportIs`): also when that call fails, and also when the body could not be read to
  its end. `XmodemFeeders.ReportOfComplete` says exactly when the report is right, and
  `XmodemFeeders.ShortBodyReported` that for a short body it says nothing about the line. An empty
  image sends one block from HTTP but nothing from flash (`XmodemFeeders.EmptyImage`).
- The parameters of a JSON command reach the MCU without their first and last character
  (`PrintedCommand.CommandSplits`), which are the brackets of an array; from a single digit the MCU gets
  what stands behind it instead (`PrintedCommand.DigitParams`).
- `mulu64` is the product exactly when no column carries two (`Limbs.Mul64Exact`); `arch_ato64u`
  reads back what was printed exactly below 10^19 (`Limbs.PrintedIsRead`).
- `__vsnprintf` returns the full length exactly when no directive is of the kind of
  `PrintfBound.SignCountedTwice`, which counts a sign past the bound twice (`PrintfBound.PrintInto`;
  `PrintfBound.OverCounted` is such a call).
- A number printed with a sign and leading blanks is one wider than asked for, exactly when the width
  is more than its digits (`PrintfFields.NumberWidth`, `PrintfFields.FieldTooWide`). The conversion o
  prints sixteens, not eights (`PrintfFields.NumberField`).
- A settled weekly timer is not always reported: not when another of its days was reported since the
  last check on a day it does not have (`TimerHistory.WeeklyExactly`, `TimerHistory.UnreportedDay`).
- An entry that does not fit the new partition costs more than itself: reading goes on in its middle
  (`PsmLayout.NoRoomFor`).
- A weekly timer does not go on firing on its days by itself: a due check executes exactly when its
  weekday was not settled since the last check on a day the timer does not have
  (`TimerRuns.DueExecutes`). So one for all seven days is settled once per weekday, ever
  (`TimerRuns.EverydayWearsOut`), and one for Thursdays misses a Thursday when the device is not
  checked in between (`TimerRuns.SecondThursday`).
- The tick counter is extended rightly exactly when the half flag notices every wrap
  (`Ticks.ShownExactly`), which samples at most half the range apart ensure (`Ticks.ExtendedCount`);
  one tick more, and a wrap can go unseen (`Ticks.HalfIsTight`).

## Model

| member | source | states |
|---|---|---|
| `Jsmn.Parser.Alloc` | miio_common/Source/src_lib/jsmn/jsmn.c:12-24 | takes the next unused token with open span and no children, or reports a full array and changes nothing |
| `Jsmn.Parser.ParsePrimitive` | miio_common/Source/src_lib/jsmn/jsmn.c:46-94 | one primitive up to its delimiter becomes one token; end of input, a forbidden character or a full array leave cursor and tokens as they were |
| `Jsmn.Parser.ParseString` | miio_common/Source/src_lib/jsmn/jsmn.c:100-166 | the same for a string and its escapes |
| `Jsmn.Parser.FindOpen` | miio_common/Source/src_lib/jsmn/jsmn.c:241-262 | the backward scan finds the highest open token below n, or -1 |
| `Jsmn.Parser.Close` | miio_common/Source/src_lib/jsmn/jsmn.c:217-264 | a closing bracket ends the innermost open container, which must be of its kind, and makes the next open one below it current |
| `Jsmn.Parser.Open` | miio_common/Source/src_lib/jsmn/jsmn.c:199-212 | an opening bracket counts in the current container and becomes current |
| `Jsmn.Parser.Dispatch` | miio_common/Source/src_lib/jsmn/jsmn.c:194-318 | one round of the loop is one step of the specification |
| `Jsmn.Parser.Parse` | miio_common/Source/src_lib/jsmn/jsmn.c:173-329 | one call, from any earlier state and over an array with anything in its unused part, computes `Run` |
| `JsmnResume.Resume` | miio_common/Source/src_lib/jsmn/jsmn.c:173-329 | stopping for any reason and calling again with at least as much input and room ends in the state, tokens and result of one call |
| `JsmnResume.RefusalIsFinal` | miio_common/Source/src_lib/jsmn/jsmn.c:173-329 | a refused input stays refused, whatever follows and however large the array |
| `JsmnResume.RoomDecides` | miio_common/Source/src_lib/jsmn/jsmn.c:12-24 | a smaller array gives the same run if the tokens fit and NOMEM exactly if they do not |
| `JsmnResume.SessionIsOneCall` | miio_common/Source/src_lib/jsmn/jsmn.c:173-329 | any sequence of calls is one call |
| `JsmnResume.TerminatedPart` | miio_common/Source/src_lib/jsmn/jsmn.c:100-166 | a part with a NUL behind it leaves the same state as a prefix of the whole text, and another result exactly when it was cut inside an escape that would have been legal |
| `JsmnResume.ResumeGrown` | miio_common/Source/src_lib/jsmn/jsmn.c:173-329 | resuming over a buffer that was NUL-terminated after each part ends like one call |
| `JsmnResume.CutInEscapeExample` | miio_common/Source/src_lib/jsmn/jsmn.c:119-154 | a text and its cut for which the results differ |
| `JsmnInvariant.RunKeeps` | miio_common/Source/src_lib/jsmn/jsmn.c:173-329 | after any call on any input: starts increase, spans are nested or disjoint, toksuper is the highest open container, every size is the number of tokens with that innermost container (modulo the signed char) |
| `JsmnInvariant.SuccessMeansClosed` | miio_common/Source/src_lib/jsmn/jsmn.c:321-328 | SUCCESS exactly at the end of the input with no container open |
| `JsmnInvariant.SuccessIsAccepted` | miio_common/Source/src_lib/jsmn/jsmn.c:173-329 | the tokens of an accepted text are all closed, ordered, nested and counted |
| `JsmnInvariant.FieldsFit` | miio_common/Source/include/lib/jsmn/jsmn.h:42-51 | all fields fit the C struct for texts of at most 32767 characters |
| `JsmnNavigate.SkipSubtree` | miio_common/Source/src_lib/jsmn/jsmn_api.c:14-29 | the counting loop stops exactly past the subtree |
| `JsmnNavigate.AcceptedIsNavigable` | miio_common/Source/src_lib/jsmn/jsmn_api.c:14-29 | whatever the tokenizer accepts can be navigated, with a sentinel and at most 127 children each |
| `JsmnNavigate.Next` | miio_common/Source/src_lib/jsmn/jsmn_api.c:14-29 | the token just past the subtree, NULL at the sentinel |
| `JsmnNavigate.ArrayValue` | miio_common/Source/src_lib/jsmn/jsmn_api.c:52-68 | the idx-th direct child of an array, NULL exactly when there is none |
| `JsmnNavigate.KeyValue` | miio_common/Source/src_lib/jsmn/jsmn_api.c:31-50 | the search over the pairs of an object, for any tokens: what it returns is never the sentinel |
| `JsmnNavigate.FindsPair` | miio_common/Source/src_lib/jsmn/jsmn_api.c:31-50 | in an object whose keys are leaves it ends at the value of the first direct pair with the key, never at one from a nested object, and at NULL exactly when no direct pair has it |
| `StringEscape.EscapeFromBuf` | miio_common/Source/util/util.c:733-753 | writes the escaped form of the longest readable prefix that is kept under the room test, and the end mark |
| `StringEscape.AllFit` | miio_common/Source/util/util.c:733-753 | everything is written exactly when the room is large enough for the escaped text and, behind a last character of one byte, one byte more |
| `StringEscape.UnescapeToBuf` | miio_common/Source/util/util.c:779-822 | writes the unescaped text as far as it fits, over whatever the buffer held |
| `StringEscape.UnescapeEscape` | miio_common/Source/util/util.c:733-822 | unescaping an escaped text gives it back, or as much of it as fits |
| `JsonPrint.PrintThenParse` | miio_common/Source/src_lib/jsmn/jsmn.c:173-329 | for every tree, layout and spelling of its strings the tokens are exactly the preorder of the tree with types, spans and child counts; only a bare literal at the end of the text asks for more |
| `JsonPrint.PrintThenParseNoRoom` | miio_common/Source/src_lib/jsmn/jsmn.c:200-202 | with fewer tokens than the tree has the call stops with NOMEM |
| `JsonPrint.TokenText` | miio_common/Source/src_lib/jsmn/jsmn_api.c:150-156 | a string token is unescaped into the buffer; any other token is reported and writes nothing |
| `JsonPrint.LeavesComeBack` | miio_common/Source/src_lib/jsmn/jsmn_api.c:150-156 | every string leaf of a printed document, and nothing else, has a string token that spans its spelling; reading it gives the original content of what was escaped, and otherwise just what the spelling alone gives |
| `JsonLookup.PrintedIsNavigable` | miio_common/Source/include/lib/jsmn/jsmn.h:42-51 | the tokens of a printed tree of at most 127 direct children per container can be navigated, and every size is the true number of children, not only modulo 256 |
| `JsonLookup.PairAt` | miio_common/Source/src_lib/jsmn/jsmn_api.c:31-50 | the p-th key and the p-th value of a printed object are where the navigator looks |
| `JsonLookup.LookupFinds` | miio_common/Source/src_lib/jsmn/jsmn_api.c:31-50 | on a printed object the search ends at the value of the first member of that name, and at NULL exactly when there is none |
| `JsonLookup.KeyToText` | miio_common/Source/src_lib/jsmn/jsmn_api.c:198-201 | jsmn_key2val_str: lookup and read-back together, for any tokens |
| `JsonLookup.Get` | miio_common/Source/src_lib/jsmn/jsmn_api.c:198-201 | printed, tokenized, looked up and read back: the content of the first member of that name if it is a string, as far as it fits; otherwise nothing is written |
| `Messages.CutIsRefused` | miio_common/Source/src_lib/jsmn/jsmn.c:321-328 | no proper beginning of an object is accepted |
| `Messages.ResultIsJson` | miio_common/Source/src_lib/miio_command.c:576-580 | an answer of JSON values is the object with the array of them, accepted by the tokenizer exactly when it fits the buffer |
| `Messages.ErrorIsJson` | miio_common/Source/src_lib/miio_command.c:630-630 | the same for an error with its code and message |
| `ValueJson.ValueIsJson` | miio_common/Source/src_lib/miio_up_manager.c:270-362 | exactly which values that pass the check are the text of a JSON value: those with nothing but blanks around them and, in a string, only whole escapes |
| `ValueJson.NumberIsRfc` | miio_common/Source/src_lib/miio_up_manager.c:270-289 | exactly which numbers that pass the check are numbers of RFC 8259, section 6 |
| `ValueJson.OpenEscape` | miio_common/Source/src_lib/miio_up_manager.c:291-310 | a string that passes the check and is not JSON: its last backslash takes the closing quote |
| `PropertyJson.MessageIsJson` | miio_common/Source/src_lib/miio_up_manager.c:663-698 | a property message of checked values is JSON exactly when it was not cut short and every value in it is JSON |
| `PropertyJson.MessageTokens` | miio_common/Source/src_lib/miio_up_manager.c:668-690 | with such values the tokenizer accepts it exactly when it was not cut, with the tokens of the header and of exactly the items sent |
| `PropertyJson.BadMessage` | miio_common/Source/src_lib/miio_up_manager.c:351-362 | with any other value it never accepts it with tokens that a JSON text could have |
| `PropertyJson.RunIsJson` | miio_common/Source/src_lib/miio_up_manager.c:398-760 | so for every message over every run of the manager |
| `PropertyJson.SpoiledMessage` | miio_common/Source/src_lib/miio_up_manager.c:351-362 | one accepted write whose message has room to spare and is not JSON |
| `PropertyJson.CutMessage` | miio_common/Source/src_lib/miio_up_manager.c:676-687 | two accepted writes whose message leaves two bytes and is cut |
| `UpLink.Manager.GetPropByName` | miio_common/Source/src_lib/miio_up_manager.c:190-203 | the first property of that name |
| `UpLink.VerifyAsNumber` | miio_common/Source/src_lib/miio_up_manager.c:256-289 | the number check: the scans from both ends and over the characters between |
| `UpLink.VerifyAsString` | miio_common/Source/src_lib/miio_up_manager.c:291-310 | the string check |
| `UpLink.VerifyAsBool` | miio_common/Source/src_lib/miio_up_manager.c:312-327 | the boolean check |
| `UpLink.Manager.SetProperty` | miio_common/Source/src_lib/miio_up_manager.c:337-431 | key and value are checked; a value that passes replaces the old one or is added, waiting to be sent if it is to be reported |
| `UpLink.Manager.AllocSession` | miio_common/Source/src_lib/miio_up_manager.c:655-661 | the next session id, never 0 |
| `UpLink.Manager.MakeJson` | miio_common/Source/src_lib/miio_up_manager.c:663-698 | marks and writes exactly the waiting, cooled-down properties that fit |
| `UpLink.Manager.SendProperty` | miio_common/Source/src_lib/miio_up_manager.c:734-760 | sends what was packed, if anything and online; a session id is taken either way |
| `UpLink.Manager.PropertyAck` | miio_common/Source/src_lib/miio_up_manager.c:700-732 | settles exactly the properties still in that session, and sends again while retries are left |
| `UpLink.PackWritesWhatItMarks` | miio_common/Source/src_lib/miio_up_manager.c:673-685 | exactly the properties marked as sending are in the message, each whole, in order, separated by commas, and two bytes are left |
| `UpLink.PackMakesProgress` | miio_common/Source/src_lib/miio_up_manager.c:676-677 | a message is empty exactly when no property is waiting and cooled down |
| `UpLink.ClosingBraces` | miio_common/Source/src_lib/miio_up_manager.c:676-686 | the closing braces are whole exactly when the items leave three bytes |
| `UpLinkRuns.StepKeeps` | miio_common/Source/src_lib/miio_up_manager.c:655-760 | every write, send, answer or other session keeps the safety invariant |
| `UpLinkRuns.AlwaysSafe` | miio_common/Source/src_lib/miio_up_manager.c:205-760 | over every run a reported write is waiting, or on its way in a session that carries exactly it, or acknowledged by the cloud, as long as fewer than 2^32 - 1 sessions are taken while a message is in flight |
| `UpLinkRuns.SafeFromStart` | miio_common/Source/src_lib/miio_up_manager.c:205-760 | in particular over every run from an empty manager |
| `UpLinkRuns.AlwaysStored` | miio_common/Source/src_lib/miio_up_manager.c:337-431 | over every run, without that bound, all that is stored has passed the check |
| `UpLinkRuns.LateAnswer` | miio_common/Source/src_lib/miio_up_manager.c:713-725 | a late answer of an older session leaves a newer write alone |
| `UpLinkRuns.SessionsDiffer` | miio_common/Source/src_lib/miio_up_manager.c:655-661 | messages less than a period apart have different session ids |
| `UpLinkRuns.SessionsRepeat` | miio_common/Source/src_lib/miio_up_manager.c:655-661 | and a full period apart the same |
| `UpLinkRuns.BoundIsTight` | miio_common/Source/src_lib/miio_up_manager.c:655-732 | a run in which an answer 2^32 - 1 sessions late hides a newer write |
| `Crc16.Bitwise` | miio_common/Source/src_lib/xmodem.c:85-101 | the bitwise build computes the CRC |
| `Crc16.ByTable` | miio_common/Source/src_lib/xmodem.c:74-81 | the table build computes the same |
| `Crc16.TableIsShift8` | miio_common/Source/src_lib/xmodem.c:39-72 | each of the 256 table entries is its index divided bit by bit |
| `Crc16Division.CrcIsFeed` | miio_common/Source/src_lib/xmodem.c:85-101 | the CRC of bytes is serial division of their bits |
| `Crc16Division.GeneratorTerms` | miio_common/Source/src_lib/xmodem.c:85-101 | the generator has exactly the powers 16, 12, 5 and 0 |
| `Crc16Division.CrcIsRemainder` | miio_common/Source/src_lib/xmodem.c:74-101 | the CRC is the remainder of the buffer times x^16 by x^16+x^12+x^5+1: there is such a division, and every one leaves the CRC |
| `Crc16Division.DivisionUnique` | miio_common/Source/src_lib/xmodem.c:74-101 | quotient and remainder are unique |
| `Crc16Division.CodewordIsZero` | miio_common/Source/src_lib/xmodem.c:238-243 | a payload followed by its two CRC bytes has CRC 0 |
| `Crc16Division.BurstDetected` | miio_common/Source/src_lib/xmodem.c:238-243 | any non-zero error burst of at most 16 bits changes the CRC |
| `Xmodem.Sender.Exchange` | miio_common/Source/src_lib/xmodem.c:256-292 | the retry loop sends one frame up to 25 times, takes only a fresh ACK, is cancelled by two CANs, and gives up with three |
| `Xmodem.Sender.Build` | miio_common/Source/src_lib/xmodem.c:221-254 | head, number and complement, payload, CRC or sum |
| `Xmodem.Sender.TransferData` | miio_common/Source/src_lib/xmodem.c:203-294 | sends the blocks of a text of whole blocks |
| `Xmodem.Sender.TransferEnd` | miio_common/Source/src_lib/xmodem.c:299-413 | sends the blocks of the text with its end mark and filling, then the end of transmission |
| `Xmodem.Sender.EndOfTransmission` | miio_common/Source/src_lib/xmodem.c:395-411 | asks up to ten times; the error flag is not looked at |
| `Xmodem.Sender.GetCrcConfig` | miio_common/Source/src_lib/xmodem.c:156-199 | restarts the numbers and waits up to sixteen times for the choice of check |
| `Xmodem.SendBlocksConcat` | miio_common/Source/src_lib/xmodem.c:203-294 | two batches of blocks are one |
| `XmodemRuns.OneStream` | miio_common/Source/src_lib/xmodem.c:221-293 | an observer of the line sees: block k under number k+1 modulo 256 and its complement, 1 to 25 identical copies between two ACKs, all acknowledged exactly when the result is 0 |
| `XmodemRuns.NumberAndComplement` | miio_common/Source/src_lib/xmodem.c:222-223 | the number byte is k+1 modulo 256 and adds up to 255 with the next |
| `XmodemRuns.TextGetsAcross` | miio_common/Source/src_lib/xmodem.c:299-413 | the acknowledged payloads are a prefix of the text with its end mark and filling, the whole of it exactly when every block went through, and stripping gives the text back |
| `XmodemRuns.PaddedCount` | miio_common/Source/src_lib/xmodem.c:322-338 | floor(n / mtu) + 1 blocks |
| `XmodemRuns.StripPadded` | miio_common/Source/src_lib/xmodem.c:327-338 | stripping the filling and the end mark gives back any text, even one that ends in such bytes |
| `XmodemReceiver.ParseFrame` | miio_common/Source/src_lib/xmodem.c:221-254 | a receiver accepts every frame the sender builds, as that block |
| `XmodemReceiver.BurstIsRefused` | miio_common/Source/src_lib/xmodem.c:238-243 | and refuses it with a burst of at most 16 wrong bits behind the head |
| `XmodemReceiver.BlocksHeard` | miio_common/Source/src_lib/xmodem.c:203-294 | sender and receiver together, over any loss, garbling and replies: the receiver has every acknowledged block once and in order and at most one more; all of them on success |
| `XmodemReceiver.Delivered` | miio_common/Source/src_lib/xmodem.c:299-413 | a transfer that reports success has delivered the text |
| `XmodemFeeders.FromFlash` | miio_common/Source/src_lib/third_party_mcu_ota.c:162-207 | the 1024-byte chunks of the flash reader show on the line as one transfer of the whole image, up to the first failed read |
| `XmodemFeeders.Gather` | miio_common/Source/src_lib/miio_command_functions.c:375-402 | the 128-byte buffer sends a block only when more follows |
| `XmodemFeeders.FromHttp` | miio_common/Source/src_lib/miio_command_functions.c:335-427 | chunks of any length show on the line as one transfer of the whole body; the result ignores the closing call |
| `XmodemFeeders.FeedersAgree` | miio_common/Source/src_lib/miio_command_functions.c:368-416 | the same image gives the same line from flash and from HTTP |
| `XmodemFeeders.ReportIs` | miio_common/Source/src_lib/miio_command_functions.c:335-416 | a download reports success exactly when the blocks before the closing call are acknowledged, whether its body was read to the end or not |
| `XmodemFeeders.ReportOfComplete` | miio_common/Source/src_lib/miio_command_functions.c:404-416 | of a complete body: the text is across exactly when all blocks are acknowledged; the report claims it wrongly exactly when the last one or two are not; and it agrees with the result of the transfer exactly when it is a failure or the transfer succeeded |
| `XmodemFeeders.ReportOfBroken` | miio_common/Source/src_lib/miio_command_functions.c:409-416 | of a body that could not be read to its end: the text is never across |
| `XmodemFeeders.ShortBodyReported` | miio_common/Source/src_lib/miio_command_functions.c:404-416 | a body of at most 128 bytes is reported as delivered on every line, also on one that never acknowledges anything |
| `XmodemFeeders.EmptyImage` | miio_common/Source/src_lib/third_party_mcu_ota.c:168-204 | except the empty one |
| `XmodemFeeders.SendAllSplit` | miio_common/Source/src_lib/xmodem.c:203-413 | a text sent whole, or its first whole blocks and then the rest |
| `PsmFormats.TextReadsBack` | miio_common/Source/src_lib/psm_upgrade_util.c:214-262 | the text format: reading gives back what was written, whatever fills the block behind it |
| `PsmFormats.ObjectsReadBack` | miio_common/Source/src_lib/psm_upgrade_util.c:56-79 | the object format: objects and blank bytes behind them say exactly their entries under consecutive ids |
| `PsmFormats.ItemsFit` | miio_common/Source/src_lib/psm_upgrade_util.c:56-79 | no partition says more than fits in it, nor a name of more than 255 bytes |
| `PsmConvert.ConvertBlock` | miio_common/Source/src_lib/psm_upgrade_util.c:216-280 | the conversion loops over one block, with their rollbacks |
| `PsmConvert.RoundFits` | miio_common/Source/src_lib/psm_upgrade_util.c:217-279 | an entry that fits becomes its object: header, checksum, name, value |
| `PsmConvert.MeaningIsKept` | miio_common/Source/src_lib/psm_upgrade_util.c:184-282 | the written partition says what the valid blocks said, in order, exactly when they fit and no name is longer than 255 bytes; then its ids are 1, 2, ... and it is blank behind the last object |
| `PsmConvert.MeaningBegins` | miio_common/Source/src_lib/psm_upgrade_util.c:184-282 | for blocks of any kind, also with an entry that lacks its equals sign: when the entries fit, the partition says all of them first, in order and under growing ids; and it says just them exactly when they fit and the bytes behind their objects say nothing |
| `PsmConvert.OldToNew` | miio_common/Source/src_lib/psm_upgrade_util.c:184-282 | what the old library wrote to the three blocks the new one reads |
| `PsmRecovery.CopyToBackup` | miio_common/Source/src_lib/psm_upgrade_util.c:137-181 | orders the erase and the copies up to the first block with a wrong checksum, and succeeds exactly when there is none |
| `PsmRecovery.ConvertBackup` | miio_common/Source/src_lib/psm_upgrade_util.c:184-305 | orders erase, write of the converted partition, erase of the backup |
| `PsmRecovery.FormatCheck` | miio_common/Source/src_lib/psm_upgrade_util.c:310-367 | nothing for a storage area of another size; otherwise one start orders exactly these operations, and they happen as far as the power lasts |
| `PsmRecovery.Recovers` | miio_common/Source/src_lib/psm_upgrade_util.c:184-367 | from a whole backup, any number of power failures before or in the middle of any operation on the storage area end where an undisturbed conversion ends |
| `PsmRecovery.ConvertedStays` | miio_common/Source/src_lib/psm_upgrade_util.c:339-367 | a converted flash is left alone |
| `PsmRecovery.FirstStartCut` | miio_common/Source/src_lib/psm_upgrade_util.c:137-181 | where a first start that was interrupted after k operations ends |
| `PsmRecovery.FirstStartRecovers` | miio_common/Source/src_lib/psm_upgrade_util.c:137-367 | which is where an undisturbed one ends, exactly unless the failure came after operations 2 to 4 and a partition not copied by then says something |
| `PsmRecovery.CutLosesEntry` | miio_common/Source/src_lib/psm_upgrade_util.c:137-181 | a flash that loses its entry when the power fails after two operations |
| `PsmRecovery.BadBlockEndsTheCopy` | miio_common/Source/src_lib/psm_upgrade_util.c:159-163 | with a wrong checksum the first start keeps the area and the second converts only the blocks before it |
| `PsmRecovery.BadBlockLoses` | miio_common/Source/src_lib/psm_upgrade_util.c:137-181 | then the new area says what the valid blocks said exactly when that fits and no valid block behind the bad one says anything |
| `DownCommand.Mcu.EnqueueRaw` | miio_common/Source/src_lib/miio_down_manager.c:60-82 | queued behind the others, or refused when eight wait |
| `DownCommand.Mcu.EnqueueJson` | miio_common/Source/src_lib/miio_down_manager.c:84-117 | the same, with an acknowledgement |
| `DownCommand.Mcu.End` | miio_common/Source/src_lib/miio_command.c:479-487 | the outstanding command is answered if it wants to be, and is done with |
| `DownCommand.Mcu.Next` | miio_common/Source/src_lib/miio_command.c:503-513 | the dequeuing loop refuses the late ones up to the first fresh one |
| `JsonCommand.JsonToCommand` | miio_common/Source/src_lib/miio_down_manager.c:127-167 | json2cmd in its own buffer: where method and parameters start, each ended by a NUL that is written there |
| `PrintedCommand.CommandSplits` | miio_common/Source/src_lib/miio_down_manager.c:127-167 | of a printed command the reader gets the text of its first method, and of its first params what stands between the brackets; nothing exactly when there is no method |
| `PrintedCommand.DigitParams` | miio_common/Source/src_lib/miio_down_manager.c:158-159 | of a last params that is a single digit the reader gets what stands behind it |
| `PrintedCommand.CommandIsShown` | miio_common/Source/src_lib/miio_command.c:518-535 | a fresh printed command is shown, as method and parameters, exactly when its method is not empty |
| `DownCommand.Mcu.ReadDown` | miio_common/Source/src_lib/miio_command.c:489-551 | get_down |
| `DownCommand.Mcu.ReadJson` | miio_common/Source/src_lib/miio_command.c:647-688 | json_get_down |
| `DownCommand.Mcu.Result` | miio_common/Source/src_lib/miio_command.c:553-595 | send_result |
| `DownCommand.Mcu.Error` | miio_common/Source/src_lib/miio_command.c:597-645 | send_error, with codes outside the range for users replaced |
| `DownCommand.Mcu.Acknowledge` | miio_common/Source/src_lib/miio_command.c:689-719 | json_ack |
| `DownCommand.Mcu.Echo` | miio_common/Source/src_lib/miio_command.c:366-386 | the time limit |
| `DownRuns.StepKeeps` | miio_common/Source/src_lib/miio_command.c:479-719 | every step keeps the invariant |
| `DownRuns.FateOfEach` | miio_common/Source/src_lib/miio_command.c:479-719 | over every run each accepted command is, by its number, finished, outstanding or queued (at most eight, in order); it was acknowledged exactly once if it is finished and wants it, otherwise not at all; the outstanding one wants it and was shown |
| `DownRuns.AnswersAreJustified` | miio_common/Source/src_lib/miio_command.c:566-719 | an answer was passed on only for a command that had been shown and whose time was not up; a time-out was one; what could not be read was never shown |
| `DownRuns.ShownInOrder` | miio_common/Source/src_lib/miio_command.c:489-688 | the MCU sees commands in the order of acceptance, each at most once |
| `Crc8.PopulateMsb` | miio_common/Source/src_lib/kernel_crc8.c:9-22 | for every polynomial, table[k] is the remainder of k |
| `Crc8.PopulateLsb` | miio_common/Source/src_lib/kernel_crc8.c:31-43 | for every polynomial, table[k] is the remainder with index, entry and polynomial read backwards |
| `Crc8.TablesMirror` | miio_common/Source/src_lib/kernel_crc8.c:9-43 | the two tables are mirror images |
| `Crc8.Crc8Of` | miio_common/Source/src_lib/kernel_crc8.c:319-326 | the table loop computes the checksum |
| `Crc8.CrcSplit` | miio_common/Source/src_lib/kernel_crc8.c:319-326 | over any split of the buffer |
| `Crc8.CrcIsDivision` | miio_common/Source/src_lib/kernel_crc8.c:319-326 | and it is serial division of all the bits |
| `Crc8Default.DefaultIsGenerated` | miio_common/Source/src_lib/kernel_crc8.c:53-310 | the constant table is the generated one for 0xD5 |
| `Limbs.Mul64Exact` | miio_common/Source/util/util.c:981-1019 | mulu64 is the product exactly when no column sum reaches two carries |
| `Limbs.Mul64Loses` | miio_common/Source/util/util.c:1002-1006 | operands for which it is not |
| `Limbs.Mul128ByLimb` | miio_common/Source/util/util.c:1023-1060 | a multiplier of one 16-bit limb, such as 10, loses no carry |
| `Limbs.PlusIsSum` | miio_common/Source/util/util.c:1062-1068 | du64_plus_u32 adds modulo 2^64 |
| `Limbs.Ato64u` | miio_common/Source/util/util.c:1128-1149 | the exact value of the leading digits, at most 19 of them |
| `Limbs.Atou64n` | miio_common/Source/util/util.c:1156-1165 | up to n digits, modulo 2^64 |
| `Limbs.ReadBoth` | miio_common/Source/util/util.c:1128-1165 | the two agree for 19 digits |
| `Limbs.PrintedIsRead` | miio_common/Source/util/util.c:1128-1149 | what is printed is read back exactly below 10^19 |
| `DecimalText.DigitsReadBack` | miio_common/Source/util/util.c:92-96 | the digits of a number stand for it |
| `Printf.PutNumber` | miio_common/Source/util/util.c:48-177 | print_number puts out sign, padding and digits, keeping what lies in the buffer |
| `Printf.Vsnprintf` | miio_common/Source/util/util.c:188-452 | what is kept of the formatted text, the end mark, nothing else touched, and the counted length |
| `PrintfBound.PrintInto` | miio_common/Source/util/util.c:188-452 | bounded printing keeps a prefix of what unbounded printing gives; it returns its length plus the number of signs counted twice, so exactly its length if and only if there is none |
| `PrintfBound.SignCountedTwice` | miio_common/Source/util/util.c:112-145 | exactly which conversions are counted one too long |
| `PrintfBound.LengthCounted` | miio_common/Source/util/util.c:188-452 | the count of a whole format is the unbounded length and one more for each of these |
| `PrintfBound.OverCounted` | miio_common/Source/util/util.c:112-145 | a format and an argument that are |
| `PrintfBound.PlainDecimal` | miio_common/Source/util/util.c:48-177 | a plain signed conversion prints every 32-bit number |
| `HexText.FormatsPair` | miio_common/Source/util/util.c:694-702 | one call of the formatter prints two digits and the separator |
| `HexText.SnprintfHex` | miio_common/Source/util/util.c:676-707 | the hexadecimal text as far as it fits; nothing at all for no bytes |
| `HexText.Axtobuf` | miio_common/Source/util/util.c:946-963 | pairs of digits are read while both bounds allow, the rest of the buffer is kept |
| `HexText.RoundTrip` | miio_common/Source/util/util.c:676-963 | bytes printed without separator, in either case, are read back, all of them |
| `HexText.SeparatorEndsIt` | miio_common/Source/util/util.c:946-963 | a separator ends the reading after the first byte |
| `LocalTimer.Schedule.ProcessWeekly` | miio_common/Source/src_lib/local_timer.c:385-442 | one weekly slot at one check |
| `LocalTimer.Schedule.ProcessOnce` | miio_common/Source/src_lib/local_timer.c:444-468 | one one-shot slot at one check |
| `LocalTimer.Schedule.Check` | miio_common/Source/src_lib/local_timer.c:470-493 | all slots, one after the other |
| `TimerRuns.SlotOfRun` | miio_common/Source/src_lib/local_timer.c:470-493 | the slots do not disturb each other |
| `TimerRuns.WeeklyOncePerDay` | miio_common/Source/src_lib/local_timer.c:385-442 | under a clock that does not go back a weekly timer is executed at most once per local day and only in its own minute and weekdays |
| `TimerRuns.DueExecutes` | miio_common/Source/src_lib/local_timer.c:385-442 | for every set of days, run and clock: a check in its minute executes exactly when its weekday was not settled since the last check on a left-out day |
| `TimerRuns.ClearedBetween` | miio_common/Source/src_lib/local_timer.c:431-441 | between two settled checks of one weekday lies a check on a left-out day |
| `TimerRuns.SecondThursday` | miio_common/Source/src_lib/local_timer.c:391-441 | a run in which a due check does not execute |
| `TimerRuns.EverydayWearsOut` | miio_common/Source/src_lib/local_timer.c:391-441 | a timer for all seven days is settled at most once on each weekday, ever |
| `TimerRuns.MarkIs` | miio_common/Source/src_lib/local_timer.c:385-442 | a weekday is marked exactly when it was settled since the last check on a left-out day |
| `TimerRuns.OnceInItsWindow` | miio_common/Source/src_lib/local_timer.c:444-468 | a one-shot is settled at most once, executed only in its five seconds, given up only later, under any clock |
| `Ticks.TickCounter.Now` | miio_common/Source/src_lib/arch_os.c:41-54 | one sample of the counter |
| `Ticks.TickCounter.Elapsed` | miio_common/Source/src_lib/arch_os.c:62-70 | the age is the difference modulo 2^32 |
| `Ticks.ExtendedCount` | miio_common/Source/src_lib/arch_os.c:41-54 | with samples at most 2^31 apart, (tick_high, tick) is the true count modulo 2^48 |
| `Ticks.ShownExactly` | miio_common/Source/src_lib/arch_os.c:41-54 | over samples any distance apart, it is the true count at every one of them exactly when each step has the wraps, modulo 2^16, that the half flag notices: one from the upper half to the lower, otherwise none |
| `Ticks.HalfIsTight` | miio_common/Source/src_lib/arch_os.c:41-54 | one tick more and a wrap can go unseen |
| `JsmnGrammar.BracketsMatch` | miio_common/Source/src_lib/jsmn/jsmn.c:199-264 | after every call on any input a closed object stands between braces and a closed array between square brackets |
| `JsmnGrammar.RunSpells` | miio_common/Source/src_lib/jsmn/jsmn.c:46-264 | after every call every token spans what its kind means: brackets of its own kind, quotes with only whole escapes between them, or a delimited run of printable characters that starts like a literal |
| `JsmnGrammar.ClosingRefused` | miio_common/Source/src_lib/jsmn/jsmn.c:217-264 | at a closing bracket the call is refused exactly when no container is open or the innermost one was opened by the other bracket |
| `JsmnGrammar.WhyItStops` | miio_common/Source/src_lib/jsmn/jsmn.c:173-329 | each of the four results comes exactly for its own reason, told by the characters at the place where the call stopped: end of input, a broken or unfinished token, a character that fits nowhere, a full array |
| `JsmnGrammar.WrongBracket` | miio_common/Source/src_lib/jsmn/jsmn.c:244-245 | an array that is closed by a brace is refused |
| `StringSpelling.SpellingIsRead` | miio_common/Source/util/util.c:779-822 | any spelling of a text, with the eight two-character escapes of RFC 8259 and the four others the program knows, is read as that text, by code points |
| `StringSpelling.ReadByPieces` | miio_common/Source/util/util.c:779-822 | every text is read piece by piece as far as there is room; only an escape in neither table leaves a byte of the buffer as it was |
| `StringSpelling.WrittenAs` | miio_common/Source/util/util.c:733-753 | seven characters are written as a backslash and the letter that RFC 8259 gives them, all others as themselves |
| `StringSpelling.WrittenWhile` | miio_common/Source/util/util.c:733-753 | a character is written exactly when two bytes are free behind those before it |
| `StringSpelling.ReadableIs` | miio_common/Source/util/util.c:733-753 | what is written ends before the first NUL or after n characters |
| `UpLinkCheck.CheckGives` | miio_common/Source/src_lib/miio_up_manager.c:256-361 | which result the check gives for every key and value: lengths 32 and 900, the characters of a key, and a value in one of its forms |
| `UpLinkCheck.ValueForms` | miio_common/Source/src_lib/miio_up_manager.c:256-327 | the scans from both ends accept exactly what is passed over around a quoted text, a run of digits and dots or one of the two words |
| `UpLinkCheck.PacksGreedily` | miio_common/Source/src_lib/miio_up_manager.c:663-692 | in list order every property that waits, has cooled down and for which there is room goes into the message, and nothing else; the room left is counted byte by byte |
| `UpLinkHistory.StatusIsHistory` | miio_common/Source/src_lib/miio_up_manager.c:205-254 | over every run in time a property holds the latest write; it is done with exactly when that write is not to be reported or is acknowledged, and on its way exactly when a message in flight carries that write |
| `UpLinkHistory.RetryExactly` | miio_common/Source/src_lib/miio_up_manager.c:700-760 | a message with retries left and no answer: all keys, values and cooldown clocks stay, and a new message with one retry less leaves exactly when something waits, the unanswered among it, that has cooled down since it was last acknowledged |
| `UpLinkHistory.ClockMoves` | miio_common/Source/src_lib/miio_up_manager.c:718-722 | the cooldown clock moves only when the latest write is acknowledged, to that tick; a first write may go at once |
| `UpLinkHistory.ClockIsHistory` | miio_common/Source/src_lib/miio_up_manager.c:718-722 | over every run the clock is the tick of the last step that acknowledged what was then the latest write |
| `XmodemLine.FrameBytes` | miio_common/Source/src_lib/xmodem.c:220-252 | every byte of a frame by its number: length mark, block number, complement, payload, and the sum of the bytes modulo 256 or the CRC with its high byte first |
| `XmodemLine.FrameExchange` | miio_common/Source/src_lib/xmodem.c:253-292 | one frame goes out before each look at the line, and the first of 25 looks that finds 0x06 or two 0x18 ends it; the results are 0, -1 and, with three 0x18, -4 |
| `XmodemLine.AskingEndsSo` | miio_common/Source/src_lib/xmodem.c:156-198 | the wait for the receiver ends at the first look that finds a C, a NAK or two CAN, each with its result; without one after the last look |
| `XmodemLine.EotEndsSo` | miio_common/Source/src_lib/xmodem.c:398-412 | the end of transmission ends at the first look that leaves the byte of an ACK, timed out or not, and with -5 without one |
| `XmodemLine.BlocksEndSo` | miio_common/Source/src_lib/xmodem.c:203-292 | the results of sending blocks are 0, -1 and -4, with an ACK or three CAN as the last thing sent |
| `XmodemLine.AllEndsSo` | miio_common/Source/src_lib/xmodem.c:299-414 | a text is its blocks and then, only if all went through, up to ten times the end of transmission |
| `XmodemLine.PaddedBytes` | miio_common/Source/src_lib/xmodem.c:336-348 | behind the text stand one 0x1A and then 0xFF up to whole blocks |
| `XmodemLine.ChoppedAt` | miio_common/Source/src_lib/xmodem.c:220-233 | block k is the k-th stretch of the text |
| `DownLines.PassedOn` | miio_common/Source/src_lib/miio_command.c:553-719 | over every run a step passes a text to the cloud exactly when it is one of the three answers with enough words, the text is what its words mean, and a command is outstanding whose time is not up; that command hears it |
| `DownLines.AnswerDoes` | miio_common/Source/src_lib/miio_command.c:553-719 | all that an answer changes: the command is done with and hears the text or that it timed out, and the MCU reads ok or error |
| `DownLines.ReadDoes` | miio_common/Source/src_lib/miio_command.c:489-688 | all that reading changes: the late ones are given up in order, the first in time is shown by its line, one without a readable method is refused unseen |
| `DownLines.ArrivalDoes` | miio_common/Source/src_lib/miio_down_manager.c:60-115 | a command arrives with its text, kind, time and wish for an answer behind the others, unless eight wait |
| `DownLines.LimitIs` | miio_common/Source/src_lib/miio_command.c:366-386 | the time limit is a minute after the last set_echo on, a second after the last off and at the start |
| `PsmLayout.ObjectBytes` | miio_common/Source/src_lib/psm_upgrade_util.c:54-81 | every byte of an object: type, flags, checksum over name, value and header, lengths and id with the low byte first |
| `PsmLayout.PartitionKinds` | miio_common/Source/src_lib/psm_upgrade_util.c:89-136 | which partitions are taken for variable blocks and for an old metadata block, by their bytes |
| `PsmLayout.StartDecides` | miio_common/Source/src_lib/psm_upgrade_util.c:310-383 | what one start orders, by the first bytes of the backup and of the area |
| `PsmLayout.LongName` | miio_common/Source/src_lib/psm_upgrade_util.c:226-276 | an entry with a name of any length that fits: the length is kept modulo 256 and the checksum runs over as many bytes as that says |
| `PsmLayout.NoRoomFor` | miio_common/Source/src_lib/psm_upgrade_util.c:226-261 | an entry for which there is no room is copied as far as there is room and given up; its id is lost and reading goes on inside it |
| `PrintfFields.DirectiveIs` | miio_common/Source/util/util.c:227-326 | flags, width and qualifier of a directive, read off its characters; a star takes an argument, a negative one puts the field on the left |
| `PrintfFields.NumberField` | miio_common/Source/util/util.c:46-186 | blanks, sign, zeros, digits, blanks: the digits stand for the value of the argument in 16 or 32 bits, in sixteens for o too, and each part has its length |
| `PrintfFields.NumberWidth` | miio_common/Source/util/util.c:109-134 | a number is as wide as asked for or as it needs exactly when it shows no sign, is not padded with leading blanks or fills the width by its digits; else it is one wider |
| `PrintfFields.FieldTooWide` | miio_common/Source/util/util.c:109-134 | a field of width five that is six wide |
| `PrintfFields.TextField` | miio_common/Source/util/util.c:328-367 | a text or character stands in its field on the side asked for, with blanks beside it |
| `PrintfFields.PointerField` | miio_common/Source/util/util.c:369-381 | a pointer is eight hexadecimal digits unless a width is given |
| `PrintfFields.OtherField` | miio_common/Source/util/util.c:383-425 | any other character is printed behind its percent sign, which stands alone when doubled or at the end |
| `HexLayout.ByteAt` | miio_common/Source/util/util.c:676-706 | byte k is two digits at k times the distance, and a separator stands between two bytes and nowhere else |
| `HexLayout.ReadIs` | miio_common/Source/util/util.c:946-963 | pairs of digits are read as long as there is a pair, the limit is not reached and there is room; byte k is the k-th pair |
| `TimerHistory.OnceExactly` | miio_common/Source/src_lib/local_timer.c:444-468 | over every run of any clock, the whole log and the final slot: the first check at or after the moment settles the timer, as executed within five seconds and else as missed; the first such check that is online reports it and empties the slot |
| `TimerHistory.WeeklyExactly` | miio_common/Source/src_lib/local_timer.c:385-442 | over every run of any clock, the exact entries of the next check |
| `TimerHistory.WeeklyStepIs` | miio_common/Source/src_lib/local_timer.c:385-442 | one check of a weekly timer: its entries and what it leaves in the slot |
| `TimerHistory.UnreportedDay` | miio_common/Source/src_lib/local_timer.c:416-440 | a day that is settled offline after another was reported, and that no later online check reports |
| `TimerHistory.LocalTime` | miio_common/Source/src_lib/local_timer.c:387-389 | day, hour and minute are those of the clock eight hours east |
| `XmodemFeeders.FirstBadIs` | miio_common/Source/src_lib/third_party_mcu_ota.c:169-176 | reads are of 1024 bytes, and the transfer stops at the first one that fails |
| `XmodemFeeders.FailedRead` | miio_common/Source/src_lib/third_party_mcu_ota.c:172-213 | with a read that fails after some bytes exactly the blocks before it are sent; when they are through, three CAN and the error, else the result of the block that was not |
| `ValueJson.LoneMinus` | miio_common/Source/src_lib/miio_up_manager.c:270-289 | a lone minus passes the check and is no number of RFC 8259 |
| `HexLayout.StyleIs` | miio_common/Source/util/util.c:681-689 | the style byte: capitals from 128 on, a printable character in the low seven bits is the separator |
| `TimerHistory.HasIsBit` | miio_common/Source/src_lib/local_timer.c:391-394 | a weekday is in a set of days exactly when its bit is set |
| `PrintfFields.Arguments` | miio_common/Source/util/util.c:328-437 | which conversions take an argument |
| `PsmLayout.WrittenBytes` | miio_common/Source/src_lib/psm_upgrade_util.c:226-262 | a text entry by its bytes: the product name and a dot, name, equals sign, value, NUL |

## Left out

- SDK and hardware calls (Wi-Fi, flash, UART and PSM drivers, power management, the cloud link of
  `ot`), device glue (LED, button, CLI, `ota.c`, `text_on_uart.c`), logging and memory allocation
  failures: foreign code or input and output.
- Threads: calls happen one after the other; races inside a call are not modelled.
- A value without any visible character: the scans of the value check leave the text on both sides,
  and whatever lies there the value is refused; the model refuses it at once.
- The event and common-data halves of the up-link manager, with `verify_event_value` and
  `verify_as_null`: queues with the same send and answer pattern, without value updates.
- `wmlist.h` and `snprintf_safe` are not part of this model: the first is taken to insert at the
  head, the second to keep all but the last byte of the room and to return what it wrote.
- `json2cmd` on a command of exactly 32 tokens: the program writes its sentinel behind its array; the
  array of the model has one place more.
- The command-line parser of the MCU link, `mdm_destroy`, and the loss of a command when an
  operating-system queue refuses it.
- Escapes of the form \uXXXX: the tokenizer model accepts them as the code does, the reader of
  string leaves leaves one byte of its buffer as it was and copies the digits, and no meaning is given
  to them.
- `jsmn_tkn2val_*` for numbers, booleans and byte buffers: compositions of members that are modelled.
- Replies that the XMODEM sender throws away unread, and whether an end of transmission was really
  acknowledged: a timeout may leave an ACK in the variable.
- The header of a firmware image in flash, opening and closing the UART and the HTTP session.
- PsmConvert.MeaningIsKept: requires that every entry has its equals sign, as the old library writes
  them; `PsmConvert.MeaningBegins` says what holds without that.
- `PsmConvert.Put`: a header that would lie behind the write cache is dropped. The program writes it
  there when an entry with neither name nor value meets a full cache.
- PsmRecovery.FormatCheck: flash reads, writes and erases that fail while there is power are not
  modelled, nor an erase of the backup that is cut short.
- The formatter with precision, "#" forms or 64-bit conversions, which are not built; a missing or
  mistyped argument; widths past the range of an int.
- `mulu64` and `mulu128` as general products beyond `Limbs.Mul64Exact`.
- The crontab text of a timer, setting and removing timers, storing them, and dates past 2038.
- `arch_os_utc_parse`, `arch_os_iso8601_time` and the tuning of the second counter.
- Base64 in `crash_trace.c`: an encoder without state (RFC 4648, section 4).
