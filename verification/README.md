# A model of the TFTP client and servers, and what is proved about it

The repository holds a C client and a C server (lock-step TFTP, octet and netascii), and a C++ server that
takes uploads and negotiates options. This project models the parts that decide whether a file arrives:

* the two-buffer read-ahead / write-behind engine with netascii conversion;
* the senders and receivers, both as the loops and handlers of the source and as state machines;
* the network between them, once as FIFO channels that lose and duplicate, once as a set of packets ever sent;
* request printing, both request parsers, option negotiation and the option acknowledgement;
* the rule on file names and where the files that the servers open may lie.

Imperative code is modelled by classes and methods with loops, each proved against a function or a state
machine; the properties are proved about those functions and machines, and put together again at the end.

## How the files fit together

| file | what it holds |
|---|---|
| `Common.dfy` | bytes, 16-bit block numbers, cutting a stream into blocks |
| `Netascii.dfy` | the netascii encoding and decoding of whole files, as pure functions |
| `TftpSubs.dfy` | class `Subs`: the engine of `tftp/tftpsubs.c`, with its byte loops |
| `CppSubs.dfy` | class `WriteQueue`: the write half of `tftp_subs.cpp`, whose results callers compare |
| `Machines.dfy` | the parties as state machines: `SenderSend`/`SenderReceive`/`SenderTimeout` follow `tftp/tftp.c:124-202` and `tftpd/tftpd.c:425-468`; `ReceiverReceive`/`ReceiverAdvance`/`ReceiverTimeout` follow `tftp/tftp.c:236-313`, `tftpd/tftpd.c:492-554` and `tftpd.hpp:235-426` |
| `Fifo.dfy` | schedules of sender, receiver and two FIFO channels; the joint invariant |
| `Delivery.dfy`, `CppRange.dfy` | what every schedule keeps: content, ACK against file, the C++ fall-through |
| `Effort.dfy`, `CppEffort.dfy`, `Termination.dfy` | timers, what every step uses up, and why every run ends |
| `Reordering.dfy` | the set-of-packets network |
| `Scripts.dfy`, `SendLoops.dfy`, `ReceiveLoops.dfy` | the C loops over the engine, driven by a script of what each blocking receive returns |
| `CppReceiver.dfy`, `CppUpload.dfy` | class `Receiver`: the handlers of `tftpd.hpp`, and the server they make up |
| `CppWrap.dfy` | what happens to uploads to the C++ server whose block numbers wrap |
| `Answers.dfy` | what each party sends in answer to what it hears while it waits |
| `EndToEnd.dfy` | a party's view of a run; both C transfers, file to file |
| `Texts.dfy`, `Negotiation.dfy`, `Agreement.dfy` | C strings and numerals, the option state machine, what both sides agree on |
| `Requests.dfy`, `RoundTrips.dfy`, `Paths.dfy` | request packets, file names |
| `Overrun.dfy` | the shortest request that overruns the acknowledgement buffer |
| `Sessions.dfy` | an upload to the C++ server from the request to the published file |

The main results:

* file to file: `EndToEnd.Download` and `EndToEnd.Upload` for the C programs, `Sessions.Upload` and
  `Sessions.ClientUpload` for the C++ server, with the loops and handlers themselves in every run;
* what is sent when: `Answers.SenderAnswers`, `Answers.ReceiverAnswers`, `Answers.CppReceiverAnswers` and
  `Answers.SilenceWithServerConstants`;
* every run: `Delivery.FifoDelivery`, `Delivery.AckMeansWritten`, `Termination.EveryScheduleEnds`;
* exact limits of the protocol: `CppWrap.CorruptsIffWrap`, `CppWrap.PublishesOtherIffWrap`,
  `CppWrap.FinishedInVainIffWrap`, `CppWrap.FinishesUnflushedIff`, `CppRange.FallThroughIffWrap`, and for a network that
  reorders `Reordering.NeverCorruptedIffSafe` and `Reordering.SuccessIsTrueIffWithinLimit`;
* negotiation: `Agreement.SettingsFollowRequest`, `Agreement.NegotiationAgrees`, `Agreement.OackRoundTrip`, `RoundTrips.CppServerReadsBack`,
  `RoundTrips.ClientReadsBlksize`;
* exact conditions on datagrams: `RoundTrips.WriteRequestOpens` and `RoundTrips.ReadRequestOpens` (a file is opened, or
  which error comes), `RoundTrips.CParsedIff` (the C server takes a request), `RoundTrips.OpenedOutsideIff` (the file opened lies outside the root directory),
  `Overrun.OverrunIffLong` and `Agreement.PrintsLongerIff` (the acknowledgement does not fit its buffer),
  `Sessions.NullFileIff` (an upload without a file).

## What the code does where one might expect something else

* `block - 1` is computed in `int`: at `block == 0` the test for the previous block never succeeds. The C programs stay
  correct over FIFO channels for files of any length; the C++ receiver writes a stale block once numbers wrap. From 65536
  blocks on there are runs in which it publishes something else than the stream, and runs in which the client finishes and
  nothing is ever published (`CppWrap`).
* The C client acknowledges the last block before it flushes it, so in every download the serving sender can finish while
  a block is pending; apart from that only a C++ upload whose block numbers wrap can end like this
  (`CppWrap.FinishesUnflushedIff`).
* The C++ receiver takes a block that is neither awaited nor the one before for the awaited one. Over a network that
  reorders, three blocks are enough for wrong content and for a false success (`Reordering.NeverCorruptedIffSafe`).
* A sender resends on a duplicate acknowledgement, against section 4.2.3.1 of RFC 1123; the model keeps this.
* The C server's test after the final ACK looks at the buffer after `writeit` has switched it; `ReceiveLoops.TakeBlocks`
  carries the block number found there and `ReceiveLoops.ServerRecvfile` shows that the final ACK is never repeated.
  The C++ server compares a received header without swapping its bytes; whether it repeats its last ACK is a parameter.
* The clock of the C++ receiver starts at one interval and is never reset, so an upload survives three expiries in all,
  where a C party survives four for each packet (`Effort.ServerBudgets`).
* A write request with fewer than two fields is accepted by the C++ parser, without a file, and answered with a whole
  buffer; the first block of its upload is flushed through a null pointer (`Sessions.NullFileIff`).
* A request whose options are all rejected is answered with a two-byte acknowledgement; the parser also looks at the byte
  behind the buffer; it asserts that a packet has four bytes. `Requests.Parse` keeps all three.
* Both servers refuse a name with a parent directory in it only if a slash follows: a name that ends in `..` is accepted.
  The C++ server puts `.upload` behind the name of an upload while it is being received, but not behind that of a read
  request, which it opens before it refuses it, nor behind the final name. `RoundTrips.OpenedOutsideIff` says exactly which
  of these paths lie outside the root directory, `RoundTrips.ReadOfParent` gives a datagram.
* The acknowledgement is copied without a bound into a buffer of 516 bytes. A value with a minus sign wraps around and is
  printed longer than it was given, and so is a size that is asked back; without such values the answer is shorter than the
  request (`RoundTrips.OackFits`). `Overrun.OverrunIffLong` gives the exact length from which on a request can overrun the
  buffer: 171 bytes for a name of one byte, or 170 if a NUL happens to follow the packet.
* In netascii mode the C engine flushes by `putc`, which only fills the buffer of the stdio stream. What the project says
  about acknowledgements and the file (`Delivery.AckMeansWritten`) is about `write_behind`; only in octet mode is that a
  `write` to the file.
* The comment on `write_behind` speaks of conversion; the C++ engine as built never converts. The comment on
  `set_utimeout` speaks of 10 ms; the code accepts 1 ms.

## Model

| member | source | states |
|---|---|---|
| Common.CutIsExact | tftp/tftpsubs.c:127-168 | a file is sent as length/512 + 1 blocks (for any block size), all full but the last, which is shorter and possibly empty, and together they are the file |
| Common.CutIsUnique | tftpd/tftpd.c:492-535 | the short last block is the only framing needed: a well-formed sequence of blocks is the cut of what it concatenates to |
| Common.NextChunk | tftp/tftpsubs.c:142-168 | reading 512 bytes at a time, and nothing past the end, yields the blocks of the cut in turn |
| Netascii.DecodeEncode | tftp/tftpsubs.c:147-232 | decoding the encoding of any bytes gives them back |
| Netascii.EncodeDecode | tftp/tftpsubs.c:185-232 | encoding a decoded stream gives the stream back if and only if it is well-formed netascii |
| Netascii.DecodeSnoc | tftp/tftpsubs.c:217-232 | the decoder needs one byte of memory: what one more byte does depends on the bytes before it only through their last one |
| Netascii.EncodeIsBytewise | tftp/tftpsubs.c:149-164 | each byte is converted for itself: 10 is sent as 13 10, 13 as 13 0, any other as it is |
| Netascii.EncodedIsPaired | tftp/tftpsubs.c:149-164 | in what is sent every 10 follows a 13 and every 13 is followed by 10 or 0 |
| Netascii.DecodeIsPairwise | tftp/tftpsubs.c:217-232 | 13 10 is received as 10 and 13 0 as 13; any other byte, a 13 before anything else included, as it is |
| TftpSubs.InFile.Getc | tftp/tftpsubs.c:156-158 | getc: the next byte, or EOF with the position kept |
| TftpSubs.InFile.Read | tftp/tftpsubs.c:142-145 | read on a regular file: short only at the end |
| TftpSubs.ModesDiffer | tftp/tftpsubs.c:142-164 | nothing is converted in octet mode, and line ends are in netascii mode |
| TftpSubs.OutFile.Putc | tftp/tftpsubs.c:228 | putc overwrites inside the file and extends it at the end |
| TftpSubs.OutFile.SeekBack | tftp/tftpsubs.c:223 | fseek(file, -1, 1) |
| TftpSubs.Subs.constructor | tftp/tftpsubs.c:94-103 | rw_init for both directions |
| TftpSubs.Subs.NextByte | tftp/tftpsubs.c:149-164 | one round of the encoder's loop yields the next byte of the encoded file, whether or not it is in the middle of a pair |
| TftpSubs.Subs.Convert | tftp/tftpsubs.c:147-167 | the byte loop fills the buffer with the next 512 bytes of the encoded file; a CR LF or CR NUL pair may straddle two buffers |
| TftpSubs.Subs.Fill | tftp/tftpsubs.c:138-168 | the buffer filled for the n-th time holds block n of the (encoded) file |
| TftpSubs.Subs.ReadAhead | tftp/tftpsubs.c:127-168 | read-ahead fills the next buffer only if it is free, never the one in use, and calling it again changes nothing |
| TftpSubs.Subs.Readit | tftp/tftpsubs.c:108-121 | the n-th readit returns block n, however often read_ahead was called before it |
| TftpSubs.EncodedByte | tftp/tftpsubs.c:149-164 | where the encoding of byte k of a file lies in the encoding of the whole file |
| TftpSubs.Subs.PutByte | tftp/tftpsubs.c:220-230 | put, seek back or skip keeps the file equal to the decoding of the raw bytes so far; seek-back is always legal because a remembered CR is the last byte of the file |
| TftpSubs.Subs.Unconvert | tftp/tftpsubs.c:217-232 | decoding buffer by buffer is decoding the whole stream, well-formed or not, however it is split |
| TftpSubs.Subs.Flush | tftp/tftpsubs.c:205-232 | the oldest pending segment is output, in order; an empty one gives -1 |
| TftpSubs.Subs.WriteBehind | tftp/tftpsubs.c:191-233 | afterwards every accepted segment is in the file |
| TftpSubs.Subs.Writeit | tftp/tftpsubs.c:174-183 | write-behind is a queue: the segment is accepted after all before it, at most one is pending, and the file is the decoding of the others |
| CppSubs.WriteQueue.constructor | tftp_subs.cpp:85-94 | rw_init(0) |
| CppSubs.WriteQueue.Flush | tftp_subs.cpp:205-221 | the oldest segment goes to the file and its length is returned |
| CppSubs.WriteQueue.WriteBehind | tftp_subs.cpp:195-221 | all accepted segments are in the file; nothing pending needs no file |
| CppSubs.WriteQueue.Writeit | tftp_subs.cpp:173-187 | a free other buffer needs no file; the result is the length of the segment given if the other buffer was free, and of the previous segment otherwise |
| Fifo.AwaitedAck | tftp/tftp.c:177-201 | the awaited acknowledgement ends the transfer after a short block and starts the next block otherwise |
| Fifo.StaleAck | tftp/tftp.c:180-190 | a copy of the acknowledgement before causes a resend of the same block or nothing, at every 16-bit block number |
| Fifo.AwaitedBlock | tftpd/tftpd.c:515-535 | the awaited block is queued behind the ones before it |
| Fifo.StaleBlock | tftpd/tftpd.c:519-524 | a copy of the block before is acknowledged again or ignored, never written, at every 16-bit block number |
| Fifo.SenderStepKeepsInv | tftp/tftp.c:158-201 | any acknowledgement that can be in flight keeps the joint invariant, with any number of packets flushed by synchnet |
| Fifo.ReceiverStepKeepsInv | tftpd/tftpd.c:504-535 | so does any block that can be in flight |
| Fifo.StepKeepsInv | tftp/tftp.c:124-202 | every step of sender, receiver and network keeps: the receiver awaits the sender's block or the next, DATA in flight are the two blocks around it in order, ACKs likewise |
| Fifo.Reachable | tftp/tftp.c:124-202 | the joint invariant holds after every schedule |
| Fifo.NetworkIsFree | tftp/tftp.c:158-171 | the network may lose or repeat any packet in flight, and nothing else happens then |
| Fifo.WaitingIsFree | tftp/tftp.c:158-191 | a party that waits can be timed out, hears what comes first, and on a repetition may discard any number of packets behind it |
| Fifo.HearingConsumes | tftp/tftp.c:180-190 | what a party hears, and what synchnet discards with it, has left the channel, and nothing else has |
| Delivery.FifoDelivery | tftpd/tftpd.c:492-541 | wrap-around safety for files of any length: file plus pending block is a prefix of the stream at a block boundary, a finished receiver or a published upload holds exactly the stream, and a finished sender means the receiver has accepted it all |
| Delivery.AckMeansWritten | tftpd/tftpd.c:492-541 | an ACK n in flight means write_behind has output blocks 1 to n-1 (1 to n for the C++ receiver), and the final ACK of an upload that it has output everything; so after a finished uploader nothing is pending |
| Delivery.AckBacked | tftpd.hpp:255-282 | the block that an acknowledgement in flight stands for, and what has been output for it |
| Delivery.StepKeepsAcksCovered | tftpd.hpp:379-426 | no step sends an acknowledgement ahead of the write it stands for |
| Delivery.DownloadMayFinishUnflushed | tftp/tftp.c:302-308 | the C client acknowledges first: for every download there is a run in which the serving sender finishes while the last block is still pending |
| Delivery.AckRunsAheadIff | tftpd/tftpd.c:497-503 | an acknowledgement of a block that is not flushed yet can be in flight exactly in downloads and in uploads of several blocks to the C server; the C++ server writes first |
| Delivery.FinishesUnflushedIffDownload | tftp/tftp.c:302-308 | while block numbers of C++ uploads do not wrap, a sender can finish before everything accepted is flushed if and only if the transfer is a download |
| CppWrap.FinishesUnflushedIff | tftpd.hpp:363-411 | without that restriction: exactly for downloads, and for C++ uploads of 65536 blocks or more |
| CppRange.InRangeNeverFallsThrough | tftpd.hpp:318-365 | up to 65535 blocks, every segment that reaches writeit has the awaited number, in every run |
| CppRange.WrappedDuplicateIsWritten | tftpd.hpp:345-365 | with more blocks there is a run in which a duplicate of block 65535 is written as block 65536 |
| CppRange.FallThroughIffWrap | tftpd.hpp:318-365 | some run writes a stale block if and only if the upload has 65536 blocks or more |
| CppWrap.TakeStale | tftpd.hpp:345-365 | whatever number from 65536 on is awaited, a copy of block 65535 is taken for it, and acknowledged as it |
| CppWrap.CorruptsIffWrap | tftpd.hpp:318-365 | some run makes the server take something that is not the beginning of the upload if and only if it has 65536 blocks or more |
| CppWrap.PublishesOtherIffWrap | tftpd.hpp:363-395 | some run publishes something else than the stream under exactly the same condition |
| CppWrap.FinishedInVainIffWrap | tftpd.hpp:363-411 | and so is there a run in which the client finishes and the server, when it has done all it can, has published nothing |
| CppWrap.ServerPublishesOther | tftpd.hpp:363-395 | the handlers, on what the server hears in such a run, leave a published file that is not the client's |
| CppWrap.ServerPublishesNothing | tftpd.hpp:363-395 | and publish nothing in a run of the other kind |
| CppRange.ReachableAcksWhole | tftpd.hpp:244-282 | in range the option acknowledgement is never repeated as its first four bytes |
| Reordering.StepKeepsInv | tftpd/tftpd.c:503-535 | over the set-of-packets network every step of the C parties keeps the prefix property |
| Reordering.ReorderingDelivery | tftpd/tftpd.c:503-541 | under any reordering and duplication, for the C parties if blocks whose numbers coincide are equal and for the C++ receiver if there are at most two blocks: file plus pending block is a prefix of the stream and a receiver that has finished or published holds exactly the stream |
| Reordering.NeverCorruptedIffSafe | tftp/tftp.c:262-290 | no schedule delivers wrong content if and only if, for the C receivers, blocks whose numbers coincide are equal, as in every file of at most 65536 blocks, and for the C++ receiver there are at most two blocks |
| Reordering.OldBlockIsAcknowledged | tftpd.hpp:345-365 | from three blocks on the C++ receiver can take an old full block for the last one, and acknowledge it as such |
| Reordering.StaleBlockIsAccepted | tftp/tftp.c:276-282 | otherwise a C receiver accepts a block from 65536 numbers earlier is accepted |
| Reordering.SuccessIsTrueIffWithinLimit | tftp/tftp.c:177-201 | a finished sender proves that everything was accepted, in every schedule, if and only if the transfer has at most 65536 blocks for a C download, 65535 for a C upload, both because then no acknowledgement number repeats, and two for an upload to the C++ server |
| Reordering.FalseSuccessBeyondLimit | tftp/tftp.c:177-201 | beyond the limit a C sender can run to the end on old acknowledgements alone |
| Reordering.StepKeepsJointInv | tftp/tftp.c:158-201 | within the limit every step keeps sender and receiver within one block of each other |
| Effort.ResendsIsExact | tftp/tftp.c:87-97 | ceil(maxtimeout / rexmtval) - 1 is the number of expiries a clock reset to zero survives |
| Effort.TimersAreBounded | tftpd/tftpd.c:402-410 | over every run, no party makes more timer-driven resends of a packet than that before it gives up; the C++ receiver's budget is one less and for the whole upload |
| Effort.ServerBudgets | tftpd.hpp:96-132 | with the constants 1 and 5: at most four expiries per packet for a C party, three for a whole upload in the C++ server, the fourth of which closes it |
| Answers.SenderAnswers | tftp/tftp.c:87-201 | for every script after which a sender waits, what it sends next: an expiry below the limit and, unless the block number is 0, the acknowledgement before the awaited one make it transmit its block exactly once more (three copies of an odd one in the debugging build); the awaited one makes it transmit the next block or stop; ERROR and the last expiry stop it; nothing else makes it send |
| Answers.SenderBegins | tftpd/tftpd.c:425-434 | the first transmission: block 1 from a server, the request from a client |
| Answers.RepeatedAck | tftp/tftp.c:180-190 | in every run a sender on block n that hears ACK n-1 transmits block n once more if n is no multiple of 65536, and otherwise nothing |
| Answers.SenderPatience | tftp/tftp.c:87-97 | a sender that hears nothing has transmitted its packet k + 1 times after k expiries below the limit |
| Answers.SenderGivesUp | tftp/tftp.c:87-97 | the expiry that reaches the limit ends it without another transmission |
| Answers.ReceiverAnswers | tftpd/tftpd.c:402-410 | for every script after which a C receiver waits, what it sends next: an expiry below the limit and, unless the awaited number is 0, the block before the awaited one make it repeat its last packet once; the awaited block is acknowledged; nothing else makes it send |
| Answers.DallyingAnswers | tftpd/tftpd.c:542-554 | after the last acknowledgement any packet and any expiry ends a server without another packet |
| Answers.CppReceiverAnswers | tftpd.hpp:107-132 | the C++ receiver sends nothing when its timer expires, acknowledges the block before again in four bytes, takes and acknowledges any other block, and stops at any other packet |
| Answers.RepeatedBlock | tftpd/tftpd.c:519-524 | in every run a receiver that waits for block n + 1 and hears block n again sends exactly one more ACK n (its first packet for n = 0), unless the awaited number is 0, and then nothing |
| Answers.ExpiryOfReceiver | tftpd/tftpd.c:402-410 | in every run an expiry below the limit makes a C receiver send that packet again and the C++ one nothing |
| Answers.ReceiverPatience | tftpd/tftpd.c:402-410 | the same for a receiver that hears nothing after k expiries |
| Answers.ReceiverGivesUp | tftpd.hpp:107-132 | and for the expiry that ends it, which comes one interval earlier in the C++ server |
| Answers.SilenceWithServerConstants | tftpd.hpp:107-132 | with an interval of 1 and a limit of 5 a C party that hears nothing transmits five times and stops at the fifth expiry, and the C++ server transmits once and stops at the fourth |
| Effort.StepGetsOn | tftp/tftp.c:158-201 | every step of the C parties but a duplication by the network lowers (blocks left, time left, work left) lexicographically |
| CppEffort.StepGetsOn | tftpd.hpp:318-365 | so does every step of an upload to the C++ server of any length, although the server takes blocks it does not await: while the client stays on one block, its copies lead the server once around the 65536 numbers before it sends what makes the client repeat the block |
| Termination.EveryScheduleEnds | tftpd/tftpd.c:402-410 | no scheduler can keep the two parties busy for ever unless the network duplicates for ever |
| Termination.Reachable | tftpd/tftpd.c:402-410 | what the argument needs holds in every run of every transfer |
| Termination.NothingUsableMeansStopped | tftpd/tftpd.c:402-410 | where nothing can happen any more, both have finished or given up, or a serving party never heard a request |
| Scripts.SenderStopped | tftp/tftp.c:203-209 | a sender that has stopped ignores the rest |
| Scripts.SettleC | tftpd/tftpd.c:498-503 | between two receives a C receiver sends one packet and flushes |
| SendLoops.HearAck | tftp/tftp.c:172-190 | the test on a received packet and the timer handler do what the sender's machine does |
| SendLoops.Listen | tftp/tftp.c:158-191 | the innermost loop does what the machine does on as many events |
| SendLoops.SendData | tftp/tftp.c:138-157 | retransmission fidelity: every transmission of block n, first or repeated, is block n of the cut, although read-ahead ran in between |
| SendLoops.Round | tftp/tftp.c:138-191 | send, read ahead and listen once |
| SendLoops.Deliver | tftp/tftp.c:136-191 | the loop until a packet is acknowledged or given up |
| SendLoops.SendBlock | tftp/tftp.c:128-201 | one trip of the outer loop takes and delivers the next block |
| SendLoops.ServerSendfile | tftpd/tftpd.c:415-471 | for every script the C server's sender sends exactly what its machine sends and ends where it ends |
| SendLoops.ClientSendfile | tftp/tftp.c:102-209 | the same for the C client's sender, which first sends and repeats the request |
| ReceiveLoops.HearData | tftpd/tftpd.c:504-525 | the test on a received packet does what the receiver's machine does |
| ReceiveLoops.AwaitBlock | tftpd/tftpd.c:497-525 | send the last packet, flush, and listen until the next block has come |
| ReceiveLoops.Queue | tftpd/tftpd.c:527-534 | the segment is queued and its own length returned, so the test for a short write never fires |
| ReceiveLoops.TakeBlocks | tftpd/tftpd.c:492-535 | the loop does what the machine does, and the header left in the next buffer is never that of the last block |
| ReceiveLoops.ServerRecvfile | tftpd/tftpd.c:482-554 | for every script the C server's receiver sends what its machine sends, never repeats the final ACK, and leaves the file its machine has flushed, decoded in netascii mode |
| ReceiveLoops.ClientRecvfile | tftp/tftp.c:214-313 | the same for the C client's receiver |
| EndToEnd.SenderFollowsView | tftp/tftp.c:124-202 | in every run, the loop run on what the sender heard is where the run has taken the sender |
| EndToEnd.ReceiverFollowsView | tftpd/tftpd.c:492-554 | the same for the receivers |
| EndToEnd.OnlyLoopsSend | tftp/tftp.c:138-155 | the network carries nothing but what the two loops have sent |
| EndToEnd.ViewFits | tftp/tftp.c:138-155 | in every run, no DATA packet that reaches a receiver is longer than its buffer |
| EndToEnd.FileArrives | tftpd/tftpd.c:482-554 | octet and netascii, any length, FIFO channels: the file a finished receiver's loop leaves is the sender's file, and so is the one that the receiver has left when the sender has finished |
| EndToEnd.Download | tftpd/tftpd.c:415-471 | top theorem for a read request: in every run the server's send loop on its file and the client's receive loop on an empty one, each on what it hears in the run, send all that the network carries, and once either has finished the client's file is the server's |
| EndToEnd.Upload | tftp/tftp.c:102-209 | the same for a write request, with the client's send loop and the server's receive loop |
| CppReceiver.Receiver.constructor | tftpd.hpp:76-81 | listening without a file, with the clock at one interval |
| CppReceiver.Receiver.SendAckbuf | tftpd.hpp:267-302 | flush first, then send, then wait |
| CppReceiver.Receiver.SendAck | tftpd.hpp:255-265 | ACK of the current number, which is then advanced |
| CppReceiver.Receiver.StartRecvfile | tftpd.hpp:235-253 | answers the request as the machine does, whether or not the request has opened a file; the only flush before the file is set finds nothing pending |
| CppReceiver.Receiver.CheckAndWriteBlock | tftpd.hpp:304-395 | for every packet the handler does what the machine does, unless it takes a block without a file to flush it to; the rename comes after the whole upload is in the file |
| CppReceiver.Receiver.WriteBlock | tftpd.hpp:363-395 | the segment is written whatever its number; the flush behind it uses a null file if and only if there is none; the other buffer is free at every writeit, so the comparison of lengths never fails |
| CppReceiver.Receiver.FinishUpload | tftpd.hpp:379-411 | flush, then rename, then the last ACK |
| CppReceiver.Receiver.OnTimer | tftpd.hpp:107-132 | an expiry resends nothing and closes on the last one, with an exception unless the last ACK was sent |
| CppReceiver.Receiver.OnLastPacket | tftpd.hpp:407-426 | a packet after the last ACK ends the session |
| CppUpload.Serve | tftpd.hpp:284-302 | the handlers, called event by event, take the server where its machine goes, and it sends what its machine sends; a null file is used exactly if none was opened and the machine has taken a block |
| CppUpload.UploadArrives | tftpd.hpp:363-426 | over FIFO channels and up to 65535 blocks, what is published is byte for byte what the client was given, the last ACK only follows publication, and a finished client means it is published, if a file was opened, and that a null file was used, if not |
| Sessions.HasFileIff | tftpd_utils.cpp:149-226 | a datagram that is taken opens a file if and only if it has two fields |
| Sessions.NullFileIff | tftpd.hpp:149-161 | some events make the server flush to a null file if and only if its request had fewer than two fields |
| Sessions.NamelessMode | tftpd_utils.cpp:149-165 | a write request that ends behind the name is taken and has one field |
| Sessions.Session | tftpd.hpp:141-161 | request, answer and handlers in one: a server is started if and only if the request is taken, with the segment size, the file and the acknowledgement that the parser has left |
| Sessions.Upload | tftpd.hpp:141-426 | top theorem for the C++ server: after any datagram, a client that cuts its stream by the block size it reads from the answer has it published byte for byte when it finishes, in every run of up to 65535 blocks; without name and mode a null file has been used by then |
| Sessions.ClientUpload | tftp/tftp.c:102-209 | the same for the C client with its own request, its send loop and its file |
| Texts.ValueDecimal | tftpd_options.cpp:273-279 | reading a printed number gives the number |
| Texts.DecimalIsShortest | tftpd_options.cpp:273-279 | no numeral of an at least equal number is shorter than std::to_string |
| Texts.StrToUmaxOfDigits | tftpd_options.cpp:258-265 | digits are read as their value, or refused if it overflows |
| Texts.StrToUmaxOfSigned | tftpd_options.cpp:258-265 | a plus sign changes nothing, a minus sign wraps around at 2^64 |
| Texts.StrToUmaxSkips | tftpd_options.cpp:258-265 | white space in front of a numeral is skipped |
| Texts.LowerAt | tftpd_options.cpp:267-268 | comparing without regard to case changes the letters A to Z only |
| Texts.PrintedShorter | tftpd_options.cpp:258-279 | no number up to the value of a numeral without a minus sign is printed longer than it |
| Texts.NegativeIsLong | tftpd_options.cpp:258-279 | a numeral with a minus sign whose value does not wrap to the end of the range has more than ten characters |
| Texts.FieldsOfTerminated | tftpd_utils.cpp:149-196 | splitting NUL-terminated non-empty fields gives them back |
| Texts.FieldsBroken | tftpd_utils.cpp:149-161 | a last field without its NUL is not a field, and is noticed |
| Negotiation.ClearsLowestBit | tftpd_options.cpp:130-131 | sz & (sz - 1) is 0 exactly for powers of two |
| Negotiation.RoundingIsUnique | tftpd_options.cpp:130-137 | the power of two p with p <= v < 2p is unique |
| Negotiation.ShiftDown | tftpd_options.cpp:132-136 | the shift loop finds it; the invariant is sz1 * sz <= v < sz1 * (sz + 1) |
| Negotiation.Server.constructor | tftpd_utils.cpp:117-142 | init_opt, and an acknowledgement buffer of 516 bytes that holds the opcode |
| Negotiation.Server.SetBlksize | tftpd_options.cpp:90-109 | set_blksize: only once, at least 8, clamped to 65464 |
| Negotiation.Server.SetBlksize2 | tftpd_options.cpp:114-143 | set_blksize2: the largest power of two not above the value, 65464 above that |
| Negotiation.Server.SetTsize | tftpd_options.cpp:165-181 | set_tsize: 0 asks for the size known, anything else sets it, through off_t |
| Negotiation.Server.SetTimeout | tftpd_options.cpp:188-199 | set_timeout: seconds, 1 to 255 |
| Negotiation.Server.SetUtimeout | tftpd_options.cpp:204-215 | set_utimeout: microseconds, rounded down to milliseconds |
| Negotiation.Server.Memcpy | tftpd_options.cpp:276-279 | one copy into the acknowledgement buffer: what it appends if it fits, and exactly when it does not |
| Negotiation.Server.DoOpt | tftpd_options.cpp:244-288 | one option changes the settings and extends the acknowledgement by at most one entry, as the negotiation step says; it writes past the buffer exactly if the entry does not fit |
| Agreement.NamesMean | tftpd_options.cpp:70-85 | the five names of options, in any case, and no other |
| Agreement.BlksizeMeans | tftpd_options.cpp:90-143 | blksize sets and acknowledges its value, and blksize2 the largest power of two not above it, from 8 to 65464 and 65464 above that, if no block size was granted before |
| Agreement.TsizeMeans | tftpd_options.cpp:165-181 | tsize sets its value, taken as an off_t, or asks with 0 for the last one set |
| Agreement.TimeoutMeans | tftpd_options.cpp:188-215 | timeout sets 1 to 255 seconds, utimeout 1000 to 255000000 microseconds rounded down to milliseconds |
| Agreement.OtherMeans | tftpd_options.cpp:267-285 | other options are ignored |
| Agreement.SettingsFollowRequest | tftpd_options.cpp:90-288 | for every option list: the first acceptable block size request, the last acceptable timeout request and the last size set decide the settings, and the acknowledgement has in order what was granted, with its value |
| Agreement.OackLayout | tftpd_options.cpp:273-287 | the acknowledgement is the bytes 0 and 6, and each name and value with its NUL |
| Agreement.NegotiationAgrees | tftpd_options.cpp:244-288 | after any option list: at most one block size entry, present exactly if one was granted, whose value is g_segsize (512 without one); g_segsize in [8, 65464]; g_timeout in [1, 255000] ms and equal to the last timeout entry converted; g_tsize the last tsize entry |
| Agreement.OackRoundTrip | tftpd_options.cpp:273-287 | parsing the acknowledgement back gives exactly the granted options in request order with their final values |
| Agreement.ClientAgrees | tftpd_options.cpp:90-143 | the block size that a client reads from the acknowledgement is the server's segment size |
| Agreement.PrintsLongerIff | tftpd_options.cpp:258-281 | exactly when an option is acknowledged with a longer value than it was given: a wrapped minus sign in a size shorter than its decimal form, or a size asked back that is longer than the question |
| Agreement.OackIsNotLonger | tftpd_options.cpp:273-287 | if that happens to no option of a list, the acknowledgement is not longer than its opcode and the option part of the request |
| Agreement.PlainOptionsFit | tftpd_options.cpp:165-181 | it happens to none if no value has a minus sign and tsize is given at most once |
| Requests.MakeRequest | tftp/tftp.c:315-331 | makerequest writes opcode, name and mode, each with its NUL, and returns the length |
| Requests.ParseC | tftpd/tftpd.c:259-286 | the two scans and the mode table of the C server, including what it reads behind the buffer |
| Requests.SkipField | tftpd_utils.cpp:149-161 | one trip of the scan finds the next field of the packet |
| Requests.TakeField | tftpd_utils.cpp:163-196 | the first field is the name, the second the mode, which is checked and the file of this request opened; from there the fields are options two by two, each of which takes the server where the negotiation step says |
| Requests.Tftp | tftpd_utils.cpp:110-226 | for every datagram the parser answers as specified: the assertion on its length, which error comes first, which file is opened for which opcode, which settings and which acknowledgement result, and whether the latter overruns its buffer |
| RoundTrips.CServerReadsBack | tftpd/tftpd.c:266-287 | what makerequest prints, with or without options behind it, is read by the C server as the same name and the lower-cased mode, whatever follows the packet |
| RoundTrips.CParsedIff | tftpd/tftpd.c:259-286 | for every packet: the C server takes it if and only if it begins with a name and a mode, each with its NUL, and the mode is netascii or octet in any case; the last NUL may be the byte that follows the packet |
| RoundTrips.CppServerReadsBack | tftpd_utils.cpp:149-226 | the C++ server reads the same name and mode from a printed request, opens a file if and only if the mode is octet and the file of that opcode can be opened, and answers by negotiating exactly the pairs of the request in order |
| RoundTrips.LoneOption | tftpd_utils.cpp:189-196 | a last option without a value is not looked at |
| RoundTrips.NoFileAnswer | tftpd_utils.cpp:123-178 | for every datagram that does not get as far as a file, its answer: 5 for the opcode, 4 for the mode or a missing NUL, the whole buffer for an upload without name and mode |
| RoundTrips.FileAnswer | tftpd_utils.cpp:180-226 | for every other datagram, its answer once the file is open: the settings and the acknowledgement that its options ask for, if it is a write request, ends with a NUL and the acknowledgement has at most 516 bytes |
| RoundTrips.WriteRequestOpens | tftpd_utils.cpp:238-326 | for every such datagram that asks to write, which file it opens or which error it gets |
| RoundTrips.ReadRequestOpens | tftpd_utils.cpp:238-326 | the same for reading |
| RoundTrips.OackFits | tftpd_utils.cpp:206-225 | for every datagram that the receive buffer holds: if no option is printed longer than it was given, the acknowledgement fits its buffer and what is sent is shorter than the request, or the whole buffer if name or mode is missing |
| Overrun.EntryBound | tftpd_options.cpp:258-281 | an option that is granted takes at least 8 bytes of the request and at most 27 of the acknowledgement |
| Overrun.OverlongCosts | tftpd_options.cpp:244-288 | options whose acknowledgement overruns take at least 161 bytes |
| Overrun.GreedyDraws | tftpd_options.cpp:165-181 | a tsize of -1 and k questions for it take 9 + 8 k bytes and draw 27 (k + 1) |
| Overrun.OverrunIffLong | tftpd_utils.cpp:140-196 | for every file name and length: there is a datagram of this length for this file whose acknowledgement overruns its buffer if and only if the file can be opened and the length is at least that of the name plus 170, or 169 if a NUL follows the packet in memory |
| Overrun.SomeOverrunIff | tftpd_utils.cpp:140-196 | so there is one for some file exactly from 171 bytes on, or 170, if one with a name of one byte can be opened |
| RoundTrips.ClientReadsBlksize | tftpd.hpp:244-250 | for every datagram that is taken, a client that reads the answer cuts its file by the server's segment size, which lies in [8, 65464] |
| RoundTrips.OpenedPath | tftpd_utils.cpp:299-326 | for every datagram, which file is opened: the one that is named for a read request, the one with the suffix for a write request |
| RoundTrips.OpenedOutsideIff | tftpd_utils.cpp:238-326 | for every datagram that makes the server open a file, that file lies outside the root directory if and only if it is a read request for a name that goes up one step and never down; the final name of an upload does under the same condition on the name |
| RoundTrips.CServerOutsideIff | tftpd/tftpd.c:332-395 | the C server opens a file outside its directory, for reading or writing, under that condition |
| RoundTrips.ReadOfParent | tftpd_utils.cpp:238-326 | a read request for ".." is refused after the parent of the root directory has been opened |
| Paths.ValidateCpp | tftpd_utils.cpp:238-326 | check, strip, stat and open: for either opcode the file opened is the specified one, or the specified error is returned |
| Paths.ValidateC | tftpd/tftpd.c:332-358 | strip, then check byte by byte: refused exactly if the stripped name climbs, also where the scan runs over the mode behind an empty name |
| Paths.SameNamesRefused | tftpd_utils.cpp:238-258 | both orders refuse the same names |
| Paths.StrippedOf | tftpd_utils.cpp:255-257 | stripping takes off the slashes in front of a name and nothing else |
| Paths.WriteAccess | tftpd_utils.cpp:238-326 | for every disk and name, which error a write request gets or which file it opens: 2 if the name would put a parent directory into the path or the root cannot be entered, errno + 100 if it cannot be opened, and otherwise the file is opened, whatever stat says |
| Paths.WriteOpensIff | tftpd_utils.cpp:238-326 | so a write request opens a file if and only if none of these is the case |
| Paths.ReadAccess | tftpd_utils.cpp:238-326 | the same for a read request, with 1 if the file is missing and 2 if it is not world-readable |
| Paths.ReadOpensIff | tftpd_utils.cpp:238-326 | and its if and only if |
| Paths.UploadStaysBelow | tftpd_utils.cpp:238-313 | a name is refused if and only if it would contribute a ".." component to the upload path, which otherwise is the root's components followed by the client's |
| Paths.UploadNeverLeaves | tftpd_utils.cpp:238-313 | no accepted name puts an upload outside the root directory while it is being received |
| Paths.TargetLeavesIff | tftpd_utils.cpp:238-326 | the named file itself is outside, for an accepted name, if and only if the root leads anywhere and the last component of the name is ".." with nothing but empty ones and "." before it |
| Paths.ParentIsAccepted | tftpd_utils.cpp:238-258 | ".." is accepted and leads outside |

## Left out

- Sockets, asio, fork and inetd, privilege dropping, signals and siglongjmp as mechanisms: a timeout is a step that is enabled only while a party waits to receive, and a send takes effect at once.
- Transfer identifiers: one session with the addresses fixed; the code does not check the peer, and a duplicated write request that starts a second server is a separate session.
- The timeout of a C++ server that never receives a request: its listening state only takes the request.
- Liveness under fair networks: only termination and safety are stated.
- Failed or partial writes, a full disk and errno: writes are complete, and a regular file reads short only at its end.
- ERROR packets sent by a party (`nak`, `send_error`) and their text: a party that reports an error stops, and the other is not told.
- Packets shorter than a header during a transfer: every arriving packet is one of the five kinds, or an option acknowledgement. A first packet may be any string of bytes.
- The content of the request packet in the protocol runs: there it is one symbol, and its bytes are the subject of `Requests` and `RoundTrips`.
- The result of the upload after an ERROR packet: the run ends without a rename and nothing is claimed about the returned name.
- Non-secure mode of `tftpd/tftpd.c`, its `stat` and permission bits, symbolic links and file creation: what `stat` and `open` say about a path is a parameter of the C++ server.
- The read half of `tftp_subs.cpp`, which the upload-only server never calls.
- rollover and windowsize options, which the source has commented out.
- The interactive client (`tftp/main.c`), tracing, statistics, progress callbacks and syslog.
- Third-party sample code, the Python wrapper, build files and manuals.
- CppUpload.UploadArrives: states nothing for uploads of 65536 blocks or more, because there it is false; `CppWrap.PublishesOtherIffWrap` and `CppWrap.FinishedInVainIffWrap` are the exact conditions.
- Termination.EveryScheduleEnds: assumes that the network stops duplicating, because unbounded duplication alone can go on for ever.
- What a server does after it has written past its acknowledgement buffer or used a null file: nothing is said about it.
- Different timer settings for the two parties of one run: both use those of the configuration, which for the C++ server are its own.
- Option-negotiating clients: the repository has none as code of the C client, so for block sizes other than 512 the client is the sending state machine.
- A relative root directory: the C++ server changes into it and then opens a path that begins with it again; `Paths.Resolve` is about absolute paths.
