# irbridge in Dafny

irbridge connects infrared remotes and a bathroom scale to TCP clients: a daemon on a
Raspberry Pi receives pulse/space samples, decodes them, forwards them to its clients, and
reports stable weights to configured URLs; a phone application can play the scale. This
project models the signal path, the scale protocol, the configuration reader and the client
table, and proves what they compute.

- `Lirc`, `IrFrames`, `IrDecoder`, `IrEncoder`: samples, the resumable NEC and unkn0 decoders
  with the loop that drives them, the encoders, and the round trips between them. One class
  `Decoder` stands for both decoders; `Codec` selects the constants and the end-of-frame test,
  the only differences between `ir_nec.c` and `ir_unkn0.c`. `Run` follows a decoder sample by
  sample, `Frames` and `Tail` split the whole stream at its gaps.
- `Bitwise`, `BitOps`: C's `&` and `|` digit by digit; bit strings to bytes and back.
- `Checksum`, `Debounce`, `StarfritRules`, `Thresholds`, `Starfrit`: the scale's frame, the
  repetition filter, the rule table, and the service (class `Scale`) built from them. Its
  invariant makes every variable and every request sent a function of the samples received.
- `Figure`: the phone's frame builder, up to what the service does with its frames.
- `CString`, `Trimming`, `TrimmingLaws`, `KeySplitting`, `ConfReader`: NUL-terminated strings,
  `trim`, `splitKey` and the line assembly of `readconf`.
- `Clients`, `ClientLaws`, `ServiceLoop`: the client table, the pass that serves it, and the main
  loop around them over any sequence of turns.
- `IrBuffer`: the phone library's 32-bit words in bytes.

Methods follow the C and Java loops on arrays and fields; each is proved against a function,
and lemmas say what that function means. A sample is a 32-bit number, and its flag and duration
are computed with `/` and `%`; the lemmas named `MasksAreDigits` and `BitSetIsMask` show that
this is what the masks of the code compute. Weights are tenths of a kilogram. What the programs
get from outside is a parameter: the samples and chunk borders, `time(NULL)` (its k-th call
returns `clock(k)`), `atof`, the lines `fgets` returns, the sockets `accept` returns, which
sockets `select` reports and what reading them yields.

Where the code and its documentation differ, the model follows the code. `docs/db.txt:24`
lists check value 1 for weight 72.3 with remain 512; the code computes 3.

Two promises fail in general, and the exact conditions are proved. A figure whose two value
bytes add up to 212, 467 or 468 gets a check value above 255 and no receiver accepts it
(`FigureReading`; 21.2 kg is one, `UnsendableWeight`). unkn0 frames have no header, so the bits
that stray samples left in the buffer become the first bits of the next frame (`StrayBit`). A
frame of fewer than 1022 bits is then recovered exactly when no bits were left; a longer one, of
which the decoder keeps 1022 bits, also when these begin with the left-over bits and repeat with
their number as period (`Unkn0NeedsCleanStart`).

## Model

| member | source | states |
|---|---|---|
| Lirc.MasksAreDigits | ircodec/include/lirc.h:22-23 | `IsPulse`, `Duration` and `Mark` are the masks `w & PULSE_BIT`, `w & PULSE_MASK` and `w` or'ed with `PULSE_BIT` |
| IrFrames.JoinOfCut | ircodec/src/ir_unkn0.c:49-52 | Cutting a stream at its gaps loses no sample and leaves no gap inside a piece |
| IrFrames.CutOfJoin | ircodec/src/ir_nec.c:49-52 | The cut is the only way to write the stream as gap-free pieces and gaps |
| IrFrames.RunIsSplit | ircodec/src/ir_unkn0.c:35-62 | Stream refinement, for both codecs: sample-by-sample decoding from a fresh buffer yields exactly the gap-closed pieces' bits, cut to 1022, empty ones dropped, and keeps the open piece |
| IrFrames.FramesFit | ircodec/src/ir_unkn0.c:49-57 | Every frame of any stream is made of '0' and '1', is not empty and has at most 1022 bits |
| IrFrames.RunConcat | ircodec/src/ir_unkn0.c:37-61 | Decoding in two parts, cut anywhere, equals decoding at once |
| IrFrames.RunGapFree | ircodec/src/ir_unkn0.c:54-57 | Inside a frame the buffer grows by the thresholded spaces, pulses ignored, overflow dropped |
| IrDecoder.Decoder.Reset | ircodec/src/ir_unkn0.c:28-33 | From any buffer contents: index 0, all cells NUL |
| IrDecoder.Decoder.TextIsString | ircodec/src/ir_nec.c:28-62 | In every reachable state the C string in the buffer has the index as length and is binary |
| IrDecoder.Decoder.Decode | ircodec/src/ir_unkn0.c:35-62 | Consumes up to and including the next gap, at least one sample if there is one; byte count and cursor stay in step; the text is the old one plus the bits, cut; a frame is announced exactly at a gap with bits in the buffer |
| IrDecoder.Decoder.Feed | ircodec/src/main.c:56-79 | The decode/consume/reset loop terminates and moves the decoder as `Run` does |
| IrDecoder.Decoder.FeedAll | raspberrypi/irbrgd/starfrit.c:112-164 | However a stream is chunked, the frames are those of the whole stream and the tail stays in the buffer |
| IrEncoder.NecEncode | ircodec/src/ir_nec.c:64-90 | The filled array: two header samples, pulse and space per character, final pulse; NULL for no bits |
| IrEncoder.Unkn0Encode | ircodec/src/ir_unkn0.c:64-88 | The filled array: pulse and space per character, final pulse; NULL for no bits |
| IrEncoder.NecNominal | ircodec/src/ir_nec.c:79-88 | The nominal durations: header 9000 then 4500, pulses 560, spaces 1680 for '1' and 560 for '0', in us |
| IrEncoder.Unkn0Nominal | ircodec/src/ir_unkn0.c:79-86 | The nominal durations: pulses 500, spaces 1000 for '1' and 500 for '0', in us |
| IrEncoder.EndsOfFrames | ircodec/src/ir_unkn0.c:49-52 | unkn0 frames end at spaces above 10000 us and nowhere else, NEC frames at any sample above 2500 us |
| IrEncoder.NecWordsFit | ircodec/src/ir_nec.c:79-88 | The nominal NEC waveform, flagged as received, is one of the tolerated waveforms of its bits |
| IrEncoder.Unkn0WordsFit | ircodec/src/ir_unkn0.c:79-86 | The same for unkn0 |
| IrEncoder.BodyBits | ircodec/include/ir_nec.h:57-65 | Any waveform within the thresholds has no gap inside and decodes to its bits |
| IrEncoder.NecResync | ircodec/src/ir_nec.c:47-59 | Whatever the decoder held, a NEC frame flushes it and starts afresh |
| IrEncoder.NecRoundTrip | ircodec/src/ir_nec.c:35-90 | After any garbage, any list of jittered frames sent with no gap between them and one at the end comes out in order, behind exactly what the garbage alone yields |
| IrEncoder.NecSelfSync | ircodec/src/ir_nec.c:79-88 | Garbage plus an encoded bit string plus a gap yields what garbage plus gap yields, then the first 1022 bits |
| IrEncoder.Unkn0RoundTrip | ircodec/src/ir_unkn0.c:35-88 | Any list of jittered frames, a space of more than 10000 us after each, comes out in order, each cut to 1022 bits, and leaves the buffer empty |
| IrEncoder.Unkn0NeedsCleanStart | ircodec/src/ir_unkn0.c:49-57 | After garbage the next frame, of any length, is the garbage's left-over bits followed by its own, cut to 1022; what it would be alone comes out if and only if there are none, or it fills the buffer and repeats them |
| IrEncoder.StrayBit | ircodec/src/ir_unkn0.c:49-57 | One stray pulse and one stray short space put a '0' before any encoded frame of fewer than 1022 bits |
| BitOps.String2Bytes | ircodec/src/bitops.c:26-56 | The array holds, byte by byte, the numbers that groups of eight bits spell, the last one padded with zeros; NULL for no bits |
| BitOps.Bytes2String | ircodec/src/bitops.c:68-89 | The array holds the first bits of the bytes, most significant first, and a NUL |
| BitOps.BitSetIsMask | ircodec/src/bitops.c:68-89 | The bit test is the mask with a single bit |
| BitOps.PackedBit | ircodec/src/bitops.c:43-52 | Every bit of the string is found again at its place in the bytes |
| BitOps.UnpackPack | ircodec/src/bitops.c:26-89 | bytes2string undoes string2bytes on every binary string of any length |
| BitOps.PackUnpack | ircodec/src/bitops.c:26-89 | string2bytes of bytes2string gives the bytes back, the unused low bits of the last one cleared |
| BitOps.PackValue | ircodec/src/bitops.c:29-55 | The base-256 value of the bytes is the base-2 value of the string times two to the padding |
| Checksum.CorrectedClosedForm | raspberrypi/irbrgd/starfrit.c:127-130 | The branches are an end-around-carry sum with the low bit forced to 1, if and only if the sum is below 768 or even |
| Checksum.CorrectedOverflows | raspberrypi/irbrgd/starfrit.c:127-132 | The check value exceeds a byte exactly for sums 511, 766 and 767 |
| Checksum.MasksAreDigits | raspberrypi/irbrgd/starfrit.c:119-128 | Remainders modulo 256 and making odd are the masks with 0xFF and 0x1 |
| Checksum.ReadingIs | raspberrypi/irbrgd/starfrit.c:117-132 | Five bytes with any head byte are read as 256 * msb + lsb if and only if the check byte is what the operators of the code yield |
| Checksum.NoReading | raspberrypi/irbrgd/starfrit.c:116-117 | Another length or another first byte is never read |
| Checksum.Collisions | raspberrypi/irbrgd/starfrit.c:127-130 | Any two sums share a check value if and only if they differ at most in the last bit once 255 is taken off per carry, and one more from 768 on |
| Checksum.FieldChange | raspberrypi/irbrgd/starfrit.c:116-132 | Exactly which changes of head, msb or lsb of an accepted frame pass: none by 2 to 253; by 1, 254 and 255 those between the sums that `Missed` lists |
| Checksum.FieldChangeBy254 | raspberrypi/irbrgd/starfrit.c:116-132 | A frame that is accepted before and after its head changes by 254 |
| Checksum.SingleBitErrors | raspberrypi/irbrgd/starfrit.c:115-132 | A flipped bit in an accepted bit string is rejected unless it is the lowest of head, msb or lsb, and then passes exactly under the same condition |
| Checksum.PackFlip | ircodec/src/bitops.c:43-52 | Flipping one bit changes one byte by that bit's weight |
| Debounce.RunIsMaximal | raspberrypi/irbrgd/starfrit.c:134-157 | The run length is that of the maximal final run of equal weights at most 15 s apart |
| Debounce.ReportedWhenEleventh | raspberrypi/irbrgd/starfrit.c:134-157 | A weighing is reported if and only if it is not zero and completes exactly eleven equal weights at most 15 s apart |
| Debounce.ReportsAreEarned | raspberrypi/irbrgd/starfrit.c:150-152 | Eleven weighings stand behind every report: 11 * reports <= weighings |
| Debounce.OneReportPerRun | raspberrypi/irbrgd/starfrit.c:134-157 | Between two reports a run ends, and the later run is at least eleven long |
| StarfritRules.RuleTable.Setup | raspberrypi/irbrgd/starfrit.c:67-96 | The table holds exactly the triples whose trimmed third token starts with http://, in order, and at most 85 of them |
| StarfritRules.StrTok | raspberrypi/irbrgd/starfrit.c:74-95 | The next maximal stretch without ';' |
| StarfritRules.TokensIs | raspberrypi/irbrgd/starfrit.c:74-95 | A string of semicolons, a token and a rest yields the token and then the rest's tokens; semicolons alone yield none |
| StarfritRules.RulesOfThree | raspberrypi/irbrgd/starfrit.c:79-91 | Three tokens make one rule, negative bounds becoming 0, if the third starts with http:// when trimmed, and otherwise none; an incomplete triple makes none |
| StarfritRules.RuleCapacity | raspberrypi/irbrgd/starfrit.c:58-64 | 12 * rules <= length + 1 for every configuration string |
| Thresholds.ExactlyOneRule | raspberrypi/irbrgd/starfrit.c:177-187 | For increasing positive thresholds, the rules between them select exactly one URL for every positive weight, that of its band |
| Thresholds.RequestsAreEarned | raspberrypi/irbrgd/starfrit.c:150-187 | With such rules a history leads to one request per report, to the band's URL, and eleven weighings stand behind each request |
| Starfrit.Scale.PushMeasurement | raspberrypi/irbrgd/starfrit.c:169-189 | Appends a request for every matching rule, in table order |
| Starfrit.RequestPerRule | raspberrypi/irbrgd/starfrit.c:177-186 | Of any rule anywhere in the table: one request at its place if the weight is within the bounds that are positive, ten tenths to a kilogram, and none otherwise |
| Starfrit.Scale.Weigh | raspberrypi/irbrgd/starfrit.c:134-157 | last_measurement, samevalue_count and last_measurement_date stay the last weight, run length minus one and last time of the history; a request goes out exactly when the history reports |
| Starfrit.Scale.ProcessFrame | raspberrypi/irbrgd/starfrit.c:114-160 | A frame adds a weighing exactly when it has five bytes, the right first byte and the right check value |
| Starfrit.Scale.Process | raspberrypi/irbrgd/starfrit.c:108-167 | The loop over a chunk keeps all variables what the samples received so far make of them |
| Starfrit.Scale.Configure | raspberrypi/irbrgd/main.c:247-252 | Reading the rules before the first sample keeps the service consistent |
| Starfrit.Scale.Serve | raspberrypi/irbrgd/main.c:369-376 | However the samples arrive, the requests sent are those the whole stream's history calls for |
| Starfrit.Life | raspberrypi/irbrgd/main.c:247-376 | A service that is built, configured and fed any chunks sends exactly the requests its configuration and the whole stream call for |
| Figure.CreateFigure | clients/android/src/com/jdodev/irclient/main.java:197-220 | The nominal unkn0 waveform of the 39 bits, for every integer value |
| Figure.FigureArrives | clients/android/src/com/jdodev/irclient/main.java:210-217 | All five bytes are restored though the 40th bit is never sent |
| Figure.FigureReading | clients/android/src/com/jdodev/irclient/main.java:161-208 | The receiver accepts the figure with weight v mod 65536 if and only if its value bytes do not add up to 212, 467 or 468 |
| Figure.UnsendableWeight | clients/android/src/com/jdodev/irclient/main.java:197-208 | The figure for 21.2 kg is never accepted |
| Figure.FigureEndToEnd | raspberrypi/irbrgd/starfrit.c:113-132 | createFigure, encoder, receiver and decoder in a row: one frame, and that reading |
| Figure.SteadyFigure | raspberrypi/irbrgd/starfrit.c:112-164 | Any jittered waveforms of one figure, read at most 15 s apart, are reported once if there are eleven or more and the value is sendable and not zero, and otherwise never |
| Trimming.CroppedIs | raspberrypi/irbrgd/trim.c:71-109 | The flag-driven right-to-left pass cuts at the first comment and strips, or strips, blanks the joining backslashes and sets the flag exactly when the final run of line ends and backslashes has a backslash |
| Trimming.Trim | raspberrypi/irbrgd/trim.c:30-112 | In place, for every string: text, length and flag are those of the declarative `Trimmed`; an empty string leaves the flag alone; nothing behind the string changes |
| Trimming.TrimBeginning | raspberrypi/irbrgd/trim.c:41-68 | Leading white space goes; a comment at the start empties the string |
| Trimming.CropTail | raspberrypi/irbrgd/trim.c:70-109 | The in-place pass computes `Cropped` |
| TrimmingLaws.TrimmedIsClean | raspberrypi/irbrgd/trim.c:30-112 | A line that is not continued has no white space at its ends and no comment left |
| TrimmingLaws.ContinuesExactly | raspberrypi/irbrgd/trim.c:84-109 | The flag is set if and only if there is no comment and some backslash has only line ends and backslashes behind it |
| TrimmingLaws.TextIs | raspberrypi/irbrgd/trim.c:30-112 | Of white space, text, white space and comment the text is left, backslashes that continue the line becoming spaces |
| TrimmingLaws.LineParts | raspberrypi/irbrgd/trim.c:30-112 | Every string can be divided in this way |
| TrimmingLaws.TrimAgain | raspberrypi/irbrgd/trim.c:84-109 | Trimming again changes nothing if and only if the line was not continued and does not end in a backslash |
| KeySplitting.SplitKey | raspberrypi/irbrgd/trim.c:145-178 | The two pointers, the NUL written after the key, and the C strings then found at them |
| KeySplitting.SettingIs | raspberrypi/irbrgd/trim.c:155-174 | A line of spaces and tabs, key, spaces and tabs, arguments is divided at exactly these places |
| KeySplitting.SettingParts | raspberrypi/irbrgd/trim.c:180-187 | The parts make up the line; there is no key only if all is blank |
| ConfReader.ReadConf | raspberrypi/irbrgd/main.c:95-114 | The loop yields the settings of exactly the logical lines: kept lines trimmed, continued runs joined, an unfinished run discarded |
| ConfReader.LogicalPush | raspberrypi/irbrgd/main.c:104-111 | One more line extends the run in progress or completes it |
| ConfReader.RunBecomesSetting | raspberrypi/irbrgd/main.c:98-115 | After any complete lines, a run of lines that are blank or continued, and a line that ends it, add the setting of their trimmed texts joined |
| ConfReader.EveryLogicalLineCounts | raspberrypi/irbrgd/main.c:113-115 | Every logical line has a key, so each yields one setting |
| Clients.ClientTable.AddClient | raspberrypi/irbrgd/server.c:55-79 | Appends the accepted socket; a failed accept changes nothing |
| Clients.ClientTable.RemoveClient | raspberrypi/irbrgd/server.c:81-99 | Removes the socket's first entry, or the last entry if the socket is not there |
| ClientLaws.RemovedIs | raspberrypi/irbrgd/server.c:89-96 | The first entry of a socket goes and all others stay in order; if there is none, the last entry of the table goes |
| Clients.ClientTable.Client | raspberrypi/irbrgd/server.c:108-111 | The entry, or -1 beyond the table |
| Clients.ClientTable.WriteToAllClients | raspberrypi/irbrgd/server.c:132-142 | Sends to every entry once, in order |
| Clients.ClientTable.Serve | raspberrypi/irbrgd/main.c:385-414 | The index loop over the shrinking table computes `Walk`, keeps the clients distinct, and forwards one message or none |
| Clients.VisitNext | raspberrypi/irbrgd/main.c:387-413 | One visit keeps the pass on course although a removal moves the next client into the visited slot |
| ClientLaws.PassDrops | raspberrypi/irbrgd/main.c:394-399 | A pass leaves the old table in order without some clients, all of which have gone; of two neighbours at most one is dropped; a served client is one with data |
| ClientLaws.LowestFirst | raspberrypi/irbrgd/main.c:387-413 | Clients before the lowest ready one are left alone; it is served and the pass ends if it sent something, and otherwise it leaves, the next one is passed over and the pass goes on behind it |
| ClientLaws.OnlyReadyAffected | raspberrypi/irbrgd/main.c:392-399 | A client that is not ready keeps its place and is not served; only clients that are ready with nothing to read are dropped |
| ClientLaws.BlockIs | raspberrypi/irbrgd/main.c:387-399 | `Block` is the length of the maximal block of clients that have gone directly before an index |
| ClientLaws.ServedInTurn | raspberrypi/irbrgd/main.c:387-413 | The client served is the first that talks and has an even number of gone clients directly before it; nobody is if there is none |
| ClientLaws.DroppedInTurn | raspberrypi/irbrgd/main.c:387-399 | The clients dropped are exactly those before the served one that have gone and have an even number of gone clients directly before them |
| ClientLaws.TableIsLive | raspberrypi/irbrgd/server.c:55-99 | After any run of connections and disconnections the table lists the live sockets, each once, in order of connection |
| ServiceLoop.RunLoop | raspberrypi/irbrgd/main.c:336-416 | Any sequence of samples, connections and passes, each pass with its own state of the clients, turns the table into `TableRun` and sends `OutputRun`; the clients stay distinct |
| ServiceLoop.TurnSends | raspberrypi/irbrgd/main.c:370-414 | One turn sends samples to every client of the table in its order, or the message of the client in turn to the device, or nothing |
| ServiceLoop.EveryoneIsServed | raspberrypi/irbrgd/main.c:370-414 | Over any run, each client gets exactly the samples that arrived while it was in the table, once and in order, and the device exactly the messages of the clients in turn |
| ServiceLoop.RunIsEvents | raspberrypi/irbrgd/main.c:336-416 | Over any turns the table is that of a sensible run of connections and disconnections: a connection per accepted socket, a disconnection per dropped client |
| ServiceLoop.DaemonTableIsLive | raspberrypi/irbrgd/main.c:336-416 | After any turns the table lists the sockets connected and not dropped, each once, in order of connection |
| ServiceLoop.Daemon | raspberrypi/irbrgd/main.c:334-416 | The same for the array the loop has worked on from an empty table |
| ServiceLoop.PassHalves | raspberrypi/irbrgd/main.c:387-399 | A pass in which nobody talks drops at least half of the clients that have gone, although it passes over neighbours |
| ServiceLoop.PassesClear | raspberrypi/irbrgd/main.c:336-416 | While nobody talks, any turns with n passes among them clear any fewer than 2^n gone clients, and keep all others and the new ones in order |
| IrBuffer.WordOfShifted | clients/android/src/com/jdodev/ircodec/IRBuffer.java:15-34 | Splitting a 32-bit integer into signed bytes and joining them loses nothing, negative values included |
| IrBuffer.ShiftedHolds | clients/android/src/com/jdodev/ircodec/IRBuffer.java:15-18 | The four bytes are the base-256 digits of the integer, lowest first |
| IrBuffer.Buffer.Put | clients/android/src/com/jdodev/ircodec/IRBuffer.java:15-20 | Stores the value at its position, lowest byte first, leaves all other bytes alone, counts four bytes more |
| IrBuffer.Buffer.Get | clients/android/src/com/jdodev/ircodec/IRBuffer.java:22-24 | The last value put at the position |
| IrBuffer.FourBytesToInt | clients/android/src/com/jdodev/ircodec/IRBuffer.java:26-34 | The sign extension of each byte is undone before joining |
| IrBuffer.Buffer.Count | clients/android/src/com/jdodev/ircodec/IRBuffer.java:36-38 | The number of words put |

## Left out

- Sockets, `select`, the lirc device, LEDs, syslog, `curl`, daemonising, lock files and signals: input, output and foreign calls.
- The `OnDataReceived` loop of the phone application: it decodes as the service does and only adds the test for 39 bits.
- The keys `readconf` acts on, `atoi`, and the text of requests: easy after the settings are known.
- Setup: the tokens `strtok` cuts out are values, so it is not captured that stored URLs point into the argument string.
- ReadConf: joins continued lines in an unbounded string where the code has 1024 bytes, and works on the lines `fgets` delivers.
- Weigh: counts and times are unbounded integers, so the wrap-around of `samevalue_count` after 2^31 repeats is not captured.
- TrimBeginning: the copy that `trim` allocates for its first pass is a string value.
- RunLoop: a failing `select`, which ends the loop, and the call of the scale service in the same turn, which `Starfrit` models. A socket number is handed out only while it is not in the table, and nobody connects while the table is full: the code has no test for that.
- Rounding of weights and bounds: rational numbers.
- The JNI glue, the UI, `iokey.c`, the `ir-test` programs, the older server and the Linux client: wrappers and near-copies.
