# Regiboard utilities: verified models

Regiboard is the board-support kit of an i.MX53 recorder: it loads a boot image over a serial line, serves kernel and
file system over TFTP, sends images over YMODEM, edits the U-Boot environment, programs an FTDI EEPROM and shows the
screen. This project models the algorithms of its C++ utilities in Dafny and proves what they guarantee.
`dafny verify dfyconfig.toml` checks everything.

| file | what it models |
|---|---|
| `TftpPacket.dfy` | the 516-byte packet buffer, the packet formats and the detection of incoming packets |
| `TftpSession.dfy` | one server session, handler by handler, changed in place |
| `TftpTransfer.dfy` | server, failing sends, lossy one-datagram channel and RFC 1350 client as one transition system, and its invariant |
| `Gf2.dfy`, `Crc16.dfy` | polynomial division over GF(2), and the table-driven CRC-16 proved against it |
| `Ymodem.dfy` | framing, the sending loop, whole transcripts of a session, and a receiver |
| `Trend.dfy` | the run-length window over a stream of samples |
| `Eeprom.dfy` | the bit-field codec over bytes and little-endian words, and its checksum |
| `UbootConf.dfy` | the converter between the U-Boot environment and text, with overrides |
| `Sdp.dfy` | the walk over device configuration data and the serial packets that replay it, attempts included |
| `Recipe.dfy` | the splitting of a recipe at `->` |
| `Framebuf.dfy` | the eight-lane palette conversion and the two frame buffers |
| `Bytes.dfy` | shared small definitions |

Code that works by changing things in place is a class or a method with loops, each proved equal to a function on
values; the properties of whole runs are then lemmas about those functions. The host is little-endian throughout.

## Where the code falls short of what one would hope

Each of these is proved; where it depends on the input, as an exact condition. The members named have rows below.

- A TFTP transfer is right exactly when each ACK that is acted on names the block sent last (`LabelsRightIff`). After a
  repeated ACK the next block goes out under a label already used, and a client takes it for the wrong block
  (`RepeatedAckSendsThirdAsSecond`, `ThirdTakenForSecond`).
- A file whose size is a multiple of 512 ends without the short block that section 6 of RFC 1350 asks for: the server
  closes, the client holds everything and waits (`ClosedMeansDelivered`, `FullLastBlockLeavesClientWaiting`).
- Only the first half of the receive buffer is cleared and filled. A request of more than 258 bytes is cut, and what is
  read behind it was never written (`RequestDetectedIff`, `LongNameIsCut`). A published file is delivered for every
  content of that memory exactly if its name has at most 255 bytes (`DeliversIff`).
- A request repeated while a task is running, or a datagram of no known kind, leaves the server with nothing to wait
  for: if block 1 is lost and the client asks again before the timer fires, nothing ever happens again (`SilentIff`,
  `RepeatedRequestHangs`).
- The limit of 12 retries ends a session that has sent something only if that very resend fails, and the counter is never
  reset by progress (`RetriesEndSessionIff`).
- Appending an empty array to a packet buffer is reported as a failure although it fits (`Buffer.AddArray`).
- A YMODEM transfer reports success however many data frames were refused (`SendFile`, `DeliveredIff`); an empty file
  divides by zero once its only frame is acknowledged (`SendData`).
- A segment of the U-Boot environment without a double NUL is converted twice (`TextIs`); text and image survive the
  round trip exactly when they are canonical (`TextRoundTripIff`, `ImageRoundTripIff`).
- A command of device configuration data that contains an all-zero pair is cut off there (`ParsedBackIff`).

## Model

| member | source | states |
|---|---|---|
| TftpPacket.AppendAllIsPrefix | src/utils/regiloader/tftp.cpp:30-40 | any series of appends leaves the first 516 bytes of their concatenation |
| TftpPacket.Buffer.constructor | src/utils/regiloader/tftp.cpp:6-8 | a new buffer is empty and zeroed |
| TftpPacket.Buffer.Clear | src/utils/regiloader/tftp.cpp:54-57 | empties and zeroes the whole buffer |
| TftpPacket.Buffer.SetData | src/utils/regiloader/tftp.cpp:13-20 | keeps the first 516 bytes of a non-empty array, refuses an empty one; bytes behind the new size stay |
| TftpPacket.Buffer.AddArray | src/utils/regiloader/tftp.cpp:30-40 | contents become the first 516 bytes of old contents and array; true exactly if the array is non-empty and fits |
| TftpPacket.Buffer.GetArray | src/utils/regiloader/tftp.cpp:42-52 | reads the bytes at an offset, true exactly if all of them lie inside the buffer |
| TftpPacket.ReadString | src/utils/regiloader/tftp.cpp:117-129 | the loop yields the NUL-free run of bytes at an offset, up to the first NUL or the end of the buffer |
| TftpPacket.ReadRequest | src/utils/regiloader/tftp.cpp:168-186 | the request reader computes the name and mode that the row below characterises |
| TftpPacket.ReadRrqIff | src/utils/regiloader/tftp.cpp:168-186 | a body parses to a name and mode if and only if the name is NUL-free and the body opens with both, each terminated (the last terminator may fall on the end of the buffer) |
| TftpPacket.ModeTexts | src/utils/regiloader/tftp.cpp:173-184 | the mode texts are "netascii", "octet" and "mail", in lower case |
| TftpPacket.ReadAck | src/utils/regiloader/tftp.cpp:249-253 | an ACK body gives its block id, most significant byte first |
| TftpPacket.NewData | src/utils/regiloader/tftp.cpp:203-209 | a DATA packet is opcode, id and payload, cut at 516 bytes |
| TftpPacket.DataRoundTrip | src/utils/regiloader/tftp.cpp:203-209 | a DATA packet is 0, 3, the id most significant byte first and the payload; a reader of RFC 1350 section 5 gets the id back, and the whole payload if and only if it has at most 512 bytes |
| TftpPacket.DetectInputPkt | src/utils/regiloader/tftp.cpp:461-483 | dispatch on the second byte alone; the body is 256 bytes that were received or cleared and 260 that were not |
| TftpPacket.AckDetected | src/utils/regiloader/tftp.cpp:461-483 | every ACK as RFC 1350 writes it is understood |
| TftpPacket.AckIdIs | src/utils/regiloader/tftp.cpp:461-483 | the ACK 0, 4, h, l is read as id 256 h + l |
| TftpPacket.KindIff | src/utils/regiloader/tftp.cpp:461-480 | for every datagram and memory the second byte alone decides the kind of packet: 1, 3, 4, 5, or none |
| TftpPacket.NameDetected | src/utils/regiloader/tftp.cpp:393-395 | a name received with its terminator is read as it was sent, whatever follows it and whatever the unwritten memory holds |
| TftpPacket.LongNameMisread | src/utils/regiloader/tftp.cpp:393-395 | for every longer name one byte of unwritten memory makes it another name: its first 256 bytes, if it has more |
| TftpPacket.LongNameIsCut | src/utils/regiloader/tftp.cpp:393-395 | a name of 300 bytes is read as 256 |
| TftpPacket.NameReadIff | src/utils/regiloader/tftp.cpp:393-395 | the name is read as it was sent, whatever memory holds, if and only if opcode, name and terminator take at most 258 bytes |
| TftpPacket.RequestDetected | src/utils/regiloader/tftp.cpp:461-483 | every request of at most 258 bytes is understood, whatever the unwritten memory holds |
| TftpPacket.RequestDetectedIff | src/utils/regiloader/tftp.cpp:461-483 | a request for a NUL-free name and a known mode is understood, whatever memory holds, if and only if it has at most 258 bytes |
| TftpSession.Session.constructor | src/utils/regiloader/tftp.cpp:328-335 | a new session is idle, with its socket still closed and nothing sent |
| TftpSession.Session.OpenSession | src/utils/regiloader/tftp.cpp:351-366 | the session is alive if and only if its socket could be opened |
| TftpSession.Session.Transmit | src/utils/regiloader/tftp.cpp:405-411 | a datagram goes out and a packet still waiting to be processed is dropped |
| TftpSession.Session.CloseSession | src/utils/regiloader/tftp.cpp:368-371 | closes socket and file and nothing else |
| TftpSession.Session.PushPacket | src/utils/regiloader/tftp.cpp:373-381 | remembers the packet for resending and transmits it |
| TftpSession.Session.ProcessTask | src/utils/regiloader/tftp.cpp:485-504 | sends the next block of at most 512 bytes under the given id and moves the file position past it; false, and no change, if there is nothing left to send |
| TftpSession.Session.HandlerRead | src/utils/regiloader/tftp.cpp:451-459 | stores the recognised packet, or none |
| TftpSession.Session.ProcessRequest | src/utils/regiloader/tftp.cpp:521-527 | an idle session opens the file and sends block 1, a running one ignores the request |
| TftpSession.Session.Process | src/utils/regiloader/tftp.cpp:506-549 | the whole dispatch: first request opens and sends block 1, repeated request is ignored, ACK sends the next block under its id plus 1 modulo 65536 or closes, anything else closes |
| TftpSession.DatagramClosesIff | src/utils/regiloader/tftp.cpp:451-549 | for every datagram, memory, state, directory and disk: receiving and processing it closes the session if and only if it is DATA or ERROR, a request for a name not published, or an ACK with nothing left to send; closing also closes the file and sends nothing |
| TftpSession.DatagramSendsIff | src/utils/regiloader/tftp.cpp:451-549 | it makes the session send if and only if it is an ACK with bytes left, or the first request for a published file that is not empty; then exactly the remembered packet goes out |
| TftpSession.Session.SetupTimer | src/utils/regiloader/tftp.cpp:397-403 | clears the timeout flag and nothing else |
| TftpSession.Session.HandlerTimer | src/utils/regiloader/tftp.cpp:422-439 | counts, retransmits the remembered packet, and raises the flag and restarts the count at 12 |
| TftpTransfer.ShortBlockIff | src/utils/regiloader/tftp.cpp:493-503 | a block is short if and only if it is the last and the size is no multiple of 512 |
| TftpTransfer.ClientTakes | src/utils/regiloader/tftp.cpp:485-504 | a client that holds k-1 or k blocks holds exactly the first k after DATA k, and answers ACK k either way |
| TftpTransfer.KeepsInv | src/utils/regiloader/tftp.cpp:422-549 | every step of server, channel and client keeps the invariant |
| TftpTransfer.Invariant | src/utils/regiloader/tftp.cpp:422-549 | the invariant holds after every sequence of steps |
| TftpTransfer.Safety | src/utils/regiloader/tftp.cpp:485-549 | in every reachable state the client holds the first k-1 or k blocks, the packets built are the k ideal ones, and a datagram to the client is block k under label k modulo 65536 |
| TftpTransfer.ClosedMeansDelivered | src/utils/regiloader/tftp.cpp:530-548 | if the session of a published file has closed, and the client has not broken it off with DATA or ERROR, the client holds exactly the file and exactly ceil(n/512) packets were built; the client knows it is done if and only if n is no multiple of 512 |
| TftpTransfer.ClosedIff | src/utils/regiloader/tftp.cpp:485-549 | in every run the session is closed if and only if, while it listened, a DATA or ERROR packet came, or the ACK of the last block when all blocks had been built, or a request for an unpublished name |
| TftpTransfer.DeliversIff | src/utils/regiloader/tftp.cpp:389-549 | for a NUL-free name, closed and not broken off means delivered for all directories, files, memory contents and steps if and only if the name has at most 255 bytes |
| TftpTransfer.UnknownNameCloses | src/utils/regiloader/tftp.cpp:512-520 | a request misread as one for an unpublished name closes the session with nothing sent |
| TftpTransfer.ResendIsIdentical | src/utils/regiloader/tftp.cpp:422-439 | in every run a timeout sends the last packet byte for byte, or nothing if the send fails, and moves neither file nor client |
| TftpTransfer.RetriesEndSessionIff | src/utils/regiloader/tftp.cpp:397-449 | in every run the retry counter equals all resends so far modulo 12; a session that has sent a packet is given up as timed out if and only if a resend has failed and their number is a multiple of 12; one that has sent nothing, if and only if the timer has fired |
| TftpTransfer.SilentIff | src/utils/regiloader/tftp.cpp:389-449 | a session that has sent a packet and is neither closed nor given up has nothing under way if and only if a repeated request or a datagram of no known kind met it, or one of its sends failed |
| TftpTransfer.SilentForever | src/utils/regiloader/tftp.cpp:573-605 | once nothing is under way, no sequence of steps makes the server act again |
| TftpTransfer.RepeatedRequestHangs | src/utils/regiloader/tftp.cpp:521-528 | a run, for every non-empty file, after which the server stays open without acting and the client never gets a byte |
| TftpTransfer.AckDrivesLabel | src/utils/regiloader/tftp.cpp:530-534 | for any ACK ids at all, packet i+1 carries block i+1 of the file under the successor of the i-th id |
| TftpTransfer.LabelsRightIff | src/utils/regiloader/tftp.cpp:530-534 | the packets are the right blocks under the right labels if and only if each ACK acted on names the block sent last |
| TftpTransfer.RepeatedAckSendsThirdAsSecond | src/utils/regiloader/tftp.cpp:530-534 | with ACK 1 acted on twice, block 3 goes out labelled 2 |
| TftpTransfer.ThirdTakenForSecond | src/utils/regiloader/tftp.cpp:530-534 | a client then holds block 1 followed by block 3, a prefix of the file if and only if block 3 opens block 2 |
| TftpTransfer.FullLastBlockLeavesClientWaiting | src/utils/regiloader/tftp.cpp:493-503 | a run for a file of 512 bytes that ends with the server closed and the client not finished |
| Gf2.ShiftLinear | src/utils/regiloader/ymodem.cpp:15-19 | one shift-and-reduce step is linear |
| Gf2.ShiftsLinear | src/utils/regiloader/ymodem.cpp:14-21 | and so is any number of them |
| Gf2.FeedAllIsShifts | src/utils/regiloader/ymodem.cpp:29-35 | feeding up to 16 bits one at a time equals mixing them in at once and then shifting |
| Gf2.ByteAtOnce | src/utils/regiloader/ymodem.cpp:31-33 | a byte-wise update equals eight bit-serial steps: low half moved up, plus eight shifts of the high half summed with the byte |
| Gf2.DivisionStep | src/utils/regiloader/ymodem.cpp:29-35 | each message bit is one step of the long division by the generator |
| Gf2.RegisterIsRemainder | src/utils/regiloader/ymodem.cpp:29-35 | the register is a remainder of message times x^16: with the quotient times the generator it adds up to it |
| Gf2.RemainderUnique | src/utils/regiloader/ymodem.cpp:29-35 | there is no other quotient and no other remainder |
| Gf2.ClearedIff | src/utils/regiloader/ymodem.cpp:29-35 | 16 bits clear a register if and only if they are its own contents |
| Gf2.FeedAllInjective | src/utils/regiloader/ymodem.cpp:31-33 | different registers stay different whatever common bits follow |
| Gf2.BurstDetected | src/utils/regiloader/ymodem.cpp:29-35 | different words of at most 16 bits between common bits never give the same register |
| Gf2.WindowDetected | src/utils/regiloader/ymodem.cpp:29-35 | bit strings that agree outside a 16-bit window and give the same register are equal |
| Gf2.GeneratorUndetected | src/utils/regiloader/ymodem.cpp:29-35 | 16 is the limit: one 17-bit change goes unnoticed at every place |
| Crc16.ByteRoundTrip | src/utils/regiloader/ymodem.cpp:32-32 | bytes and their eight bits determine each other |
| Crc16.ToBitsAt | src/utils/regiloader/ymodem.cpp:12-22 | bit i from the left of an n-bit number is worth 2^(n-1-i) |
| Crc16.PolyIsTail | src/utils/regiloader/ymodem.hpp:42-42 | 0x1021 is x^12 + x^5 + 1, bit by bit |
| Crc16.Crc.ComputeEntry | src/utils/regiloader/ymodem.cpp:12-22 | the loop with its two variables computes the eight-fold shift of i times x^8 |
| Crc16.Crc.constructor | src/utils/regiloader/ymodem.cpp:8-24 | so all 256 table entries are right |
| Crc16.Crc.Compute | src/utils/regiloader/ymodem.cpp:29-35 | for every message and initial value the table-driven loop returns the bit-serial register, high and low half exchanged |
| Crc16.CrcIsRemainder | src/utils/regiloader/ymodem.cpp:29-35 | for every message, q and r are quotient and remainder of message times x^16 by x^16 + x^12 + x^5 + 1 if and only if r is the register from zero and q its quotient |
| Crc16.BitsInjective | src/utils/regiloader/ymodem.cpp:29-35 | messages of one length with the same bits are the same |
| Crc16.BurstErrorDetected | src/utils/regiloader/ymodem.cpp:29-35 | payloads that differ, but only inside 16 consecutive bits, never have the same CRC |
| Crc16.CheckIsZeroIff | src/utils/regiloader/ymodem.cpp:56-62 | two trailing bytes make the CRC zero if and only if they are the CRC as it is sent |
| Ymodem.Port.IsResponse | src/utils/regiloader/ymodem.cpp:97-109 | takes exactly one reply and compares it |
| Ymodem.Port.WaitForResponse | src/utils/regiloader/ymodem.cpp:111-117 | takes replies up to and including the first wanted one, at most 255 |
| Ymodem.Sequence.Send | src/utils/regiloader/ymodem.cpp:52-81 | puts the signal byte or the whole frame (type, number, complement, payload, CRC) on the line and counts modulo 256 |
| Ymodem.Sequence.Reset | src/utils/regiloader/ymodem.cpp:87-89 | the next number is 0 |
| Ymodem.ReadFrame | src/utils/regiloader/ymodem.cpp:178-183 | the i-th reading gives the i-th kilobyte of the file followed by zeros |
| Ymodem.SendBlock | src/utils/regiloader/ymodem.cpp:178-189 | one round sends data frame i under number i+1 modulo 256 and takes one reply |
| Ymodem.SendData | src/utils/regiloader/ymodem.cpp:173-195 | for every file and all replies the loop sends a prefix of the ideal frames, as long as the replies say; it crashes if and only if the file is empty and the reply is ACK |
| Ymodem.SendFile | src/utils/regiloader/ymodem.cpp:151-205 | for every file, header and replies: how long a request is waited for, how many replies are taken, when the transfer is refused or crashes; and that a checking receiver of header, data, two EOT and an empty closing header, hearing the wire, ends finished if and only if the second reply after the header is REQUEST, and with the whole file if and only if also every data frame but the last is acknowledged |
| Ymodem.OpenTransfer | src/utils/regiloader/ymodem.cpp:162-172 | waits for a request, sends the header as frame 0, and goes on if and only if the second reply is REQUEST |
| Ymodem.TranscriptHeard | src/utils/regiloader/ymodem.cpp:151-205 | the same of the whole transcript, for every non-empty file and all replies |
| Ymodem.SendClosing | src/utils/regiloader/ymodem.cpp:197-202 | two EOT bytes and an empty frame under number 0 |
| Ymodem.ClosingHeard | src/utils/regiloader/ymodem.cpp:197-202 | a receiver that is collecting data takes the closing packets as the end of the file |
| Ymodem.FrameArrives | src/utils/regiloader/ymodem.cpp:52-64 | a receiver that checks number, complement and CRC gets every payload back |
| Ymodem.FramesArrive | src/utils/regiloader/ymodem.cpp:173-195 | the first k data frames carry the first k kilobytes of the file padded with zeros |
| Ymodem.SentFromIff | src/utils/regiloader/ymodem.cpp:186-195 | k frames go out if and only if the first k-1 replies are ACK and, below the total, the k-th is not |
| Ymodem.DeliveredIff | src/utils/regiloader/ymodem.cpp:173-195 | a receiver gets a prefix of the padded file, and all of the file if and only if every data frame but the last is acknowledged |
| Trend.Trend.constructor | src/utils/regitest/dfb_chart_test/dfb_chart_test.cpp:36-38 | a new trend is empty |
| Trend.Trend.PushPoint | src/utils/regitest/dfb_chart_test/dfb_chart_test.cpp:40-63 | the new list and length for any merge decision, merging and evicting in one step included |
| Trend.FirstPushIs | src/utils/regitest/dfb_chart_test/dfb_chart_test.cpp:104-110 | the first push leaves two runs of width 1, or one if the limit is 0 |
| Trend.PushIs | src/utils/regitest/dfb_chart_test/dfb_chart_test.cpp:40-63 | every later push, for any history: it widens the newest run by one or puts a run of width 1 in front, takes one place from the oldest run once limit pushes have been made, and leaves all runs between as they are; number, widths and samples of the runs |
| Trend.AddsRunIff | src/utils/regitest/dfb_chart_test/dfb_chart_test.cpp:48-52 | while nothing is evicted, a push adds a run if and only if the sample is not flat, there is only one run, or the newest is approxim wide |
| Trend.FlatRuns | src/utils/regitest/dfb_chart_test/dfb_chart_test.cpp:48-52 | n flat pushes leave runs of widths rest, a, .., a, 1 from newest to oldest, with n = a * full + rest and a = max(1, approxim) |
| Trend.AlignedEvicted | src/utils/regitest/dfb_chart_test/dfb_chart_test.cpp:55-62 | evicting takes exactly one place from the oldest end, keeps the runs aligned with the samples and never empties the list |
| Trend.PushKeeps | src/utils/regitest/dfb_chart_test/dfb_chart_test.cpp:40-63 | one push with any merge decision keeps the whole invariant |
| Trend.RunKeeps | src/utils/regitest/dfb_chart_test/dfb_chart_test.cpp:40-63 | so it holds after any pushes |
| Trend.WindowShowsTail | src/utils/regitest/dfb_chart_test/dfb_chart_test.cpp:40-63 | after n pushes the runs spell out min(n, limit)+1 values for the newest places of p1, p1, p2, .., pn, each a sample at most max(1, approxim)-1 places older than its own |
| Trend.ExactWhenNothingMerges | src/utils/regitest/dfb_chart_test/dfb_chart_test.cpp:48-52 | with approxim at most 1 the runs spell out exactly the newest samples |
| Trend.RunBookkeeping | src/utils/regitest/dfb_chart_test/dfb_chart_test.cpp:40-63 | after any pushes the widths sum to length+1, each lies in 1..max(1, approxim), the length is min(n, limit), or n for a negative limit, and the list is not empty |
| Eeprom.Config.EncodeField | src/utils/regitest/ttyusb_test/ttyusb_test.cpp:105-127 | one field laid over the image in place: its bits in its byte or its two bytes, every other byte untouched, nothing for an unset field, a bit offset beyond the size or a mask beyond 16 bits |
| Eeprom.Config.Seal | src/utils/regitest/ttyusb_test/ttyusb_test.cpp:128-136 | the last word becomes the checksum of the words before it |
| Eeprom.Config.Encode | src/utils/regitest/ttyusb_test/ttyusb_test.cpp:104-137 | all fields in table order, then the checksum |
| Eeprom.Config.Decode | src/utils/regitest/ttyusb_test/ttyusb_test.cpp:139-161 | every field of the table gets the value the image holds for it |
| Eeprom.DecodedByte | src/utils/regitest/ttyusb_test/ttyusb_test.cpp:149-153 | a field of at most 8 bits reads as its byte divided by 2^offs, cut to the mask |
| Eeprom.DecodedWord | src/utils/regitest/ttyusb_test/ttyusb_test.cpp:155-159 | a field of up to 16 bits reads as low byte + 256 * high byte, divided by 2^offs and cut to the mask |
| Eeprom.DecodeSkips | src/utils/regitest/ttyusb_test/ttyusb_test.cpp:142-147 | a field whose bit offset is not below the size, or with a mask beyond 16 bits, is left as it was |
| Eeprom.EncodeSkips | src/utils/regitest/ttyusb_test/ttyusb_test.cpp:107-114 | such a field, and one without a value, leaves the image as it was |
| Eeprom.AppliedAllAt | src/utils/regitest/ttyusb_test/ttyusb_test.cpp:105-127 | for disjoint fields every byte is the old one outside the union of the masks and the union of the values inside |
| Eeprom.WrittenShows | src/utils/regitest/ttyusb_test/ttyusb_test.cpp:114-126 | under its mask every written field shows exactly its value |
| Eeprom.UncoveredKept | src/utils/regitest/ttyusb_test/ttyusb_test.cpp:105-127 | bits that no written field owns keep their old contents |
| Eeprom.DecodeAfterEncode | src/utils/regitest/ttyusb_test/ttyusb_test.cpp:104-161 | decoding an encoded image gives every set field its value back and every other field what the old image held |
| Eeprom.RestKept | src/utils/regitest/ttyusb_test/ttyusb_test.cpp:104-137 | encoding changes no bit outside the written fields and the checksum word |
| Eeprom.OnlyFittingValuesReturn | src/utils/regitest/ttyusb_test/ttyusb_test.cpp:149-159 | no image gives back a value outside its mask, so the condition on values cannot be dropped |
| Eeprom.OrderIrrelevant | src/utils/regitest/ttyusb_test/ttyusb_test.cpp:105-127 | tables with the same fields in any order encode to the same image |
| Eeprom.ChecksumIs | src/utils/regitest/ttyusb_test/ttyusb_test.cpp:128-136 | checksum = turn^k(0xAAAA) xor the xor over i of turn^(k-i)(w_i), turn being rotation to the left as arithmetic |
| Eeprom.RotlIsTurn | src/utils/regitest/ttyusb_test/ttyusb_test.cpp:134-134 | the shifts of the code double a word modulo 65536 and add the bit that leaves, x div 32768 |
| Eeprom.EncodedChecksum | src/utils/regitest/ttyusb_test/ttyusb_test.cpp:104-137 | the last two bytes of every encoded image, as low + 256 * high, are that checksum of all words before them |
| Eeprom.UnnoticedIff | src/utils/regitest/ttyusb_test/ttyusb_test.cpp:128-136 | two word sequences share a checksum if and only if their changed bits, rotated into place, cancel out |
| Eeprom.OneWordNoticed | src/utils/regitest/ttyusb_test/ttyusb_test.cpp:128-136 | changing exactly one word always changes the checksum |
| Eeprom.SpansApart | src/utils/regitest/ttyusb_test/ttyusb_test.cpp:31-56 | fields whose runs of bits do not overlap own disjoint bits of every byte |
| Eeprom.ShippedTableWellFormed | src/utils/regitest/ttyusb_test/ttyusb_test.cpp:31-56 | the shipped table is pairwise disjoint, fits its bytes and words, and stays clear of the checksum in 128 bytes |
| Eeprom.ShippedWithValues | src/utils/regitest/ttyusb_test/ttyusb_test.cpp:31-56 | and so is it with any values that fit their masks |
| UbootConf.FilterReplacesValue | src/utils/regisetup/uboot_conf/uboot_conf.cpp:86-100 | keys are kept, the value is replaced exactly when its key has an override, other rows stay, and filtering twice is filtering once |
| UbootConf.FilterPair | src/utils/regisetup/uboot_conf/uboot_conf.cpp:86-100 | key=value keeps its key, and its value unless the key is board_id, lcd_model or ts_model and its own override is not "X" |
| UbootConf.FilterOther | src/utils/regisetup/uboot_conf/uboot_conf.cpp:86-100 | a row without "=", or beginning with it, stays as it is |
| UbootConf.Convert | src/utils/regisetup/uboot_conf/uboot_conf.cpp:106-126 | the inner loop with its offsets and counters writes the filtered rows of the segment and tells whether a double NUL ended it |
| UbootConf.BinToText | src/utils/regisetup/uboot_conf/uboot_conf.cpp:102-129 | one conversion, or two of the same segment when no double NUL ended the first |
| UbootConf.TextToBin | src/utils/regisetup/uboot_conf/uboot_conf.cpp:131-149 | the line-by-line copy into a zeroed segment, preceded by its checksum, least significant byte first |
| UbootConf.Le32Iff | src/utils/regisetup/uboot_conf/uboot_conf.cpp:142-143 | four bytes are the checksum as written if and only if, lowest first, they are its value in base 256 |
| UbootConf.CopiedIs | src/utils/regisetup/uboot_conf/uboot_conf.cpp:137-141 | what is copied is the text with newlines turned into NULs, up to the end or into the first line over 254 characters; all of it if and only if there is no such line |
| UbootConf.ScanShows | src/utils/regisetup/uboot_conf/uboot_conf.cpp:106-126 | the rows and rest of a scan are the segment up to its first double NUL, with NULs turned into newlines |
| UbootConf.ScanMarked | src/utils/regisetup/uboot_conf/uboot_conf.cpp:106-126 | terminated rows followed by zeros scan back to exactly those rows |
| UbootConf.TextIs | src/utils/regisetup/uboot_conf/uboot_conf.cpp:102-129 | without overrides the text is the segment up to the double NUL, or the whole segment twice |
| UbootConf.OpenSegmentText | src/utils/regisetup/uboot_conf/uboot_conf.cpp:102-129 | for any rows, unfinished last row and overrides: a segment without a double NUL gives all its rows filtered, the last one too, twice |
| UbootConf.TextRoundTripIff | src/utils/regisetup/uboot_conf/uboot_conf.cpp:102-149 | text to binary to text is the identity if and only if the text is canonical: whole lines, none empty but the first, none over 254 characters, no NUL, shorter than the segment |
| UbootConf.RebuiltIff | src/utils/regisetup/uboot_conf/uboot_conf.cpp:102-149 | the segment written from a segment's text is the same if and only if there is no newline in it, no row over 254 characters, and only zeros after the double NUL |
| UbootConf.ImageRoundTripIff | src/utils/regisetup/uboot_conf/uboot_conf.cpp:102-149 | binary to text to binary reproduces an image if and only if it is canonical, its stored checksum included |
| UbootConf.OverridesRebuild | src/utils/regisetup/uboot_conf/uboot_conf.cpp:86-149 | converting with overrides and writing back gives the filtered rows if and only if each fits the row buffer and together they leave room in the segment; they keep number, order and keys, the overridden values are exactly replaced, and converting again then gives the same text |
| Sdp.Firmware.InitPairs | src/utils/regiloader/sdp.cpp:508-518 | the loop collects the pairs of a command up to its count or the first zero pair, and where the next command starts |
| Sdp.Firmware.InitCommands | src/utils/regiloader/sdp.cpp:520-535 | the loop halts on every memory and appends exactly the commands of the walk |
| Sdp.WalkTiles | src/utils/regiloader/sdp.cpp:508-535 | the recorded commands tile the walked bytes in order, from the start to a place behind the list or without a command |
| Sdp.ZeroPairIff | src/utils/regiloader/sdp.cpp:512-513 | a pair stops the walk of its command if and only if all its eight bytes are zero |
| Sdp.CommandStops | src/utils/regiloader/sdp.cpp:508-518 | a command gets as many pairs as its length has room for, unless eight zero bytes come first |
| Sdp.CommandKept | src/utils/regiloader/sdp.cpp:508-518 | of an encoded command exactly the pairs before the first of eight zero bytes are kept |
| Sdp.ParsedBackIff | src/utils/regiloader/sdp.cpp:508-535 | an encoded list of commands, with 4 added to its length for its own header, parses back to itself if and only if no pair in it is eight zero bytes |
| Sdp.Packet.AddArray | src/utils/regiloader/sdp.cpp:208-224 | the byte-by-byte placement in 8-bit arithmetic, dropping what falls outside the packet |
| Sdp.Packet.GetArray | src/utils/regiloader/sdp.cpp:226-241 | the matching reader; places outside the packet keep the caller's bytes |
| Sdp.AddArrLands | src/utils/regiloader/sdp.cpp:208-224 | inside the packet an array lands in one piece, reversed if most significant first, and the rest stays |
| Sdp.AddArrAt | src/utils/regiloader/sdp.cpp:208-224 | every byte of the packet after an array has been added at any offset: its place has the byte of the array, all others keep theirs, and nothing is added if the start is not in the request |
| Sdp.PlaceIs | src/utils/regiloader/sdp.cpp:211-220 | byte k belongs, modulo 256, k bytes after the offset, or k bytes before the end if most significant first |
| Sdp.GetsBack | src/utils/regiloader/sdp.cpp:208-241 | what has been added is read back in either byte order |
| Sdp.WriteMemIs | src/utils/regiloader/sdp.cpp:312-321 | all 16 bytes of a write-memory packet |
| Sdp.ReadMemIs | src/utils/regiloader/sdp.cpp:349-358 | all 16 bytes of a read-memory packet |
| Sdp.SendWriteMem | src/utils/regiloader/sdp.cpp:125-130 | clearing, writing the fields and then the command id builds that packet |
| Sdp.SendReadMem | src/utils/regiloader/sdp.cpp:125-130 | likewise for reading |
| Sdp.Line.Transmit | src/utils/regiloader/sdp.cpp:134-148 | the same packet goes out until it is answered, at most four times |
| Sdp.TriesIff | src/utils/regiloader/sdp.cpp:134-148 | all attempts but the last are unanswered, and fewer than four means the last was answered |
| Sdp.UploadPairs | src/utils/regiloader/regiloader.cpp:53-73 | the inner loop over the pairs of one command extends the wire by their packets |
| Sdp.UploadDCD | src/utils/regiloader/regiloader.cpp:48-76 | for all answers the wire grows by a write and a read packet for each pair of all commands, in order, each repeated as its answers demand |
| Sdp.UploadVerbatim | src/utils/regiloader/regiloader.cpp:55-58 | the i-th write packet carries the i-th pair's address and value bytes verbatim, the read packet the same address |
| Sdp.AllPairsAt | src/utils/regiloader/regiloader.cpp:51-54 | pair k of command c comes after all pairs of the commands before |
| Sdp.PairInMemory | src/utils/regiloader/sdp.cpp:508-535 | pair k of walked command c is the eight bytes that stand in memory after the commands before, its header and its earlier pairs |
| Sdp.EachInTurn | src/utils/regiloader/sdp.cpp:134-148 | every packet occupies its own one to four consecutive places of the wire, decided by its own answers |
| Sdp.OnceEachIff | src/utils/regiloader/sdp.cpp:134-148 | the wire is the plain list of packets if and only if every one is answered at once |
| Sdp.ListIsReplayed | src/utils/regiloader/regiloader.cpp:48-76 | for every memory and all answers, in the turn of pair k of walked command c every attempt carries its eight bytes verbatim from their place in memory, in file order |
| Recipe.Split | src/utils/regiloader/regiloader.cpp:1634-1648 | the loop ends on every string and yields its pieces |
| Recipe.JoinPieces | src/utils/regiloader/regiloader.cpp:1638-1648 | joining the pieces with the delimiter gives the input back |
| Recipe.PiecesArePlain | src/utils/regiloader/regiloader.cpp:1638-1648 | there is at least one piece and none contains the delimiter |
| Recipe.PiecesOfJoin | src/utils/regiloader/regiloader.cpp:1638-1648 | splitting the join of any non-empty list of delimiter-free pieces returns the list |
| Recipe.PiecesIff | src/utils/regiloader/regiloader.cpp:1638-1648 | the pieces are the one non-empty delimiter-free list that joins to the input |
| Framebuf.LaneIsId | src/utils/regirfb/framebuf.cpp:31-35 | no 16-bit lane ever overflows, and the narrowed sum is the id of the pixel |
| Framebuf.GetIdIs | src/utils/regirfb/framebuf.cpp:31-35 | the id is the sum of the components weighted 28, 151 and 77, scaled down by 256 |
| Framebuf.PixelIdIs | src/utils/regirfb/framebuf.cpp:227-236 | with red first, green second and blue third among the bytes of a pixel |
| Framebuf.LanesAreIds | src/utils/regirfb/framebuf.cpp:227-236 | eight lanes at once compute the ids of eight consecutive pixels, at three or four bytes a pixel |
| Framebuf.ConvertToPalette | src/utils/regirfb/framebuf.cpp:209-287 | the loop writes the ids of all whole groups of eight pixels and touches nothing else |
| Framebuf.AllConvertedIff | src/utils/regirfb/framebuf.cpp:219-219 | every pixel is converted if and only if their number is a multiple of eight |
| Framebuf.FrameFitsIff | src/utils/regirfb/framebuf.cpp:93-98 | a frame of 54 + 1024 + w*h bytes fits its buffer if and only if w*h*(depth-1) is at least 54 |
| Framebuf.Screen.constructor | src/utils/regirfb/framebuf.cpp:93-98 | two separate buffers of the size of the screen memory and 1024 bytes more |
| Framebuf.Screen.SwitchToNextFrame | src/utils/regirfb/framebuf.cpp:296-301 | the other of the two frames is shown |
| Framebuf.Screen.PrepareBMPFrame | src/utils/regirfb/framebuf.cpp:303-360 | the frame shown so far stays whole; with depth 3 or 4 the other one becomes header, palette and pixel ids and is shown, otherwise nothing shown changes |

## Left out

- TftpTransfer.Safety: runs hold one datagram in flight, the timer fires only when nothing is in flight, the client asks again only while it has no block and never repeats an ACK by itself, but may send any datagram that is neither request nor ACK; ACKs that break this are the subject of `TftpTransfer.LabelsRightIff`. The same holds for the other lemmas about runs. A receive that fails is a loss.
- TftpPacket.DetectInputPkt: the half of the receive buffer that is never written, and the two bytes read behind it, are arbitrary inputs, not the same ones at each receive.
- TftpPacket.ReadString: a name that runs to the end of the buffer makes the source read one byte more; the position returned then is past the end in either case, so it is not distinguished.
- Trend.Trend.PushPoint: the floating-point angle and the remembered direction are an arbitrary boolean; the wrap of the 32-bit length, reachable only with limit -1 after 2^32 pushes, is not modelled.
- Eeprom.Config.Encode: the guard of the source compares the bit offset and not the address, so addresses inside the image are demanded of the caller; shifts by 32 bits or more are undefined in C++ and cannot be written in the model.
- UbootConf.BinToText: the image is exactly one checksum and one segment; a short or longer file is not modelled.
- UbootConf.TextToBin: the copied text must fit the segment; the source writes past its buffer otherwise.
- UbootConf.TextRoundTripIff: texts longer than the segment are outside, for the same reason.
- UbootConf.ImageRoundTripIff: segments without a double NUL are outside; their text is twice as long and need not fit. The same holds for `UbootConf.OverridesRebuild`.
- Sdp.UploadDCD: the contents of the answers are not modelled, only whether each attempt is answered in time; the values read back decide nothing in the source either, since the loop around them runs once.
- Sdp.WalkTiles: how the unpacked C++ structures lie in memory is left open (a layout gives tag and length), as are the missing return value and the search for the image header.
- Framebuf.ConvertToPalette: one to seven pixels are excluded, since the assembler loop would then run 2^32 rounds.
- Framebuf.Screen.PrepareBMPFrame: header and palette bytes are inputs and the bitmap depth is its default of one byte a pixel; the values kept from the first call are not modelled.
- Ymodem.SendFile: the contents of the header frame are an input, because the source writes each of its strings at offset 0; a closed port, an empty path and a file that cannot be opened are left out, and so is the percentage, apart from its division by zero.
- CRC words are bit strings, most significant bit first, rather than machine words; crc32 is any function.
- Sockets, serial ports, timers as real time, files that fail while being read, mmap and printing; null pointers.
- TFTP liveness, several clients at once, the writers of request and error packets, and the error texts.
- Status, file-write and jump packets of the serial download protocol: further instances of the packet modelled here.
- Provisioning actions, shell commands, console parsing and volume sizing in the loader; argument parsing everywhere.
- Drawing, DirectFB and Cairo code, the generation of the palette, and the libftdi calls around the EEPROM codec.
- modpoll, the modbus, udev, usb and netlink tests, fcb_gen, regisplash, HTML tools, scripts and kernel patches: I/O wrappers or easy members.
