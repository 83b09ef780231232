# Selective-reject file transfer: a verified model

The repository holds `rcopy` and `server`, a file transfer over lossy UDP with a
selective-reject sliding window, and the library its datagrams go through, which
checksums them and injects faults. This project models those parts and proves
what they are for. `Network.OutputIsPrefix`: whatever the handshake left in flight,
and whatever is lost, corrupted by the injector, duplicated, delayed or reordered,
the bytes written are a prefix of the source file, and the receiver finishes only
with the whole of it. `Network.TransferCompletes`: while the receiver has not
finished and neither end has given up, a transfer can always be completed and
acknowledged. Both hold of the protocol as documented. What each check that the
code leaves out is worth is `Acceptance.PrefixIff`; how far the code as committed is
from the protocol otherwise is proved as well.

`dafny verify dfyconfig.toml` checks everything.

## How it is laid out

| file | models |
|---|---|
| `Bytes.dfy` | bytes, 16- and 32-bit words, network byte order |
| `Checksum.dfy` | `in_cksum` against RFC 1071, stamping, padding, byte order, one-byte changes |
| `Wire.dfy` | the PDUs: builders that fill a buffer, parsers, round trips |
| `Injector.dfy` | `PacketManager`, `errorDrop`, `errorFlipBits`, and what `SettingsManager` registers |
| `CircularBuffer.dfy` | slots indexed by sequence number modulo the window size, and the map they stand for |
| `Window.dfy` | `ReceiverBuffer` and `SenderWindow` of `window.c`, arrays updated in place |
| `FileChunks.dfy` | the source file cut by `getDataChunk` |
| `Receiver.dfy` | the IN_ORDER / BUFFERING / FLUSHING machine of `rcopy.c` |
| `Sender.dfy` | `doSendDataState` of `server.c` |
| `Transfer.dfy` | both ends and the network between them, as one step system |
| `Network.dfy` | the same endpoints over bytes: layout, stamp, injector, network, parser |
| `Acceptance.dfy` | the same network with parsers that check less, down to the code's |
| `Handshake.dfy` | the filename exchange: client, main server, forked children |
| `Departures.dfy` | single expressions taken exactly as written, with the condition under which they do what is documented |
| `AsWritten.dfy` | the two data machines taken exactly as written, over whole runs |

Every imperative method is proved equal to a specification function (`Receive`,
`FillAll`, `OnControl`, `OnTimeout`, `Process`, `SendLoop`, ...), and the step
systems are built from those same functions, so a property of a run is a property
of the methods.

## Two layers

As committed, the data phase cannot move more than one chunk: the receive states
return the client's DONE after a successful reply (rcopy.c:487-492 and 518-520), a
flush hands `fwrite` a negative length (rcopy.c:568, window.c:72 and 113-114), the
server reads the wrong number out of an RR (server.c:422-432) and inserts into
freed slots (window.c:239-240). The protocol these functions implement is set down
in the repository's README (153-164, 189-206, 208-264) and in the comments beside
the code, and that protocol is what `Sender`, `Receiver` and `Transfer` model. Where
the two differ the documented behaviour is modelled and the code's own is stated and
proved about separately:

| documented behaviour used | what the code does | proved in |
|---|---|---|
| RR n carries n in bytes 7 to 10 and makes n the lower edge | header sequence plus one | `Departures.RRNumberIff` |
| SREJ n carries n in bytes 7 to 10 and asks for packet n | the slot of the header sequence, the receiver's own SREJ counter | `Departures.SrejNumberIff`, `AsWritten.SrejAnsweredIff` |
| the sender stays until everything is acknowledged | the child leaves at the empty read, with packets outstanding (server.c:377-381 and 194-196) | `AsWritten.LeavesIff` |
| upper edge is lower + W, `current` is the next number to send | last one sent, against W and then lower + W - 1 | `Departures.OpenIff`, `Departures.OverrunLosesLower` |
| an RR marks a packet only if it moves the window | every RR marks whatever its slot holds | `Departures.StaleAckIff` |
| a slot emptied by an advance is filled again by the next insert | NULL is dereferenced | `AsWritten.SenderStalls` |
| a resend is the PDU first sent | it is seven stale bytes longer | `Departures.ResentIff` |
| `highest` is a signed maximum | never rises from -1 | `Departures.HighestIff` |
| the out-of-order packet that causes BUFFERING is buffered and answered with an SREJ | it is discarded and not answered | `AsWritten.ReceiverWritesOne`, `AsWritten.AnswerIff`, `AsWritten.EveryPacketAnsweredIff` |
| the packet that fills the gap is written before the flush | it is skipped | `Departures.GapFillIff`, `AsWritten.FilledGapIsSkipped` |
| after a flush the receiver sends RR, and SREJ if a gap remains | nothing is sent or stored, so old packets get no RR for the new number either | `AsWritten.AnswerIff`, `AsWritten.OldAnsweredIff` |
| a flushed payload is the received length less the 7-byte header | less 14, and the length given is that of a pointer, so always negative | `Departures.FlushLosesTail`, `Departures.FlushOfPointer` |
| an in-order payload is the received length less the 7-byte header | always `buffer_size` bytes | `Departures.WriteExactIff`, `AsWritten.WholeFileWrittenIff` |
| EOF is the packet after the last chunk, travels through the window, and finishes the receiver when it is flushed | the send is a stub, and any packet flagged 10 finishes the receiver, after `buffer_size` bytes were written if it was the expected one | `Departures.EofAsWrittenIff`, `Departures.EofCanOvertake` |
| the data checksum covers the PDU, zero-padded when its length is odd | padded by the parity of the payload | `Departures.PaddingIff`, `Departures.BuilderIff` |
| data PDUs, RRs and SREJs are taken in only when the checksum returns zero | only the filename PDU is verified; the programs ask for no flip (rcopy.c:27, server.c:30 and 128), but the environment can register one all the same | `Departures.UnverifiedIff`, `Acceptance.PrefixIff` |
| data packets are flagged 10, 16, 17 or 18 (README:294-300) | the receiver never looks at the flag (rcopy.c:344 and 416-441), and the PDUs of the handshake, on the same socket, are numbered 1 | `Acceptance.PrefixIff`, `Acceptance.WholeIff` |
| chunks up to 1400 bytes | the buffer size passes through a `uint8_t` and only so many bytes of the chunk are copied | `Departures.PayloadKeptIff`, `Departures.FilePayloadsKeptIff` |
| a filename of up to 100 characters | the server's 100-byte array has no room for the terminator | `Wire.FilenameRoundTrip` |

## Model

| member | source | states |
|---|---|---|
| Bytes.RoundTrip32 | server.c:770-778 | reading four bytes back in network order undoes writing them, both ways |
| Bytes.NetworkOrder | server.c:770-778 | the bytes written are the base-256 digits, the most significant first |
| Checksum.InCksum | libcpe464/checksum.c:58-86 | for every buffer whose sum fits, the answer is the complement of the end-around-carry sum of section 1 of RFC 1071, with every accumulator value inside a signed 32-bit int |
| Checksum.FoldCarries | libcpe464/checksum.c:81-85 | two folds and truncation give the complement of the residue of any non-negative 32-bit sum |
| Checksum.AccumulatorFitsIff | libcpe464/checksum.c:60-79 | no content of a given length can overflow the accumulator if and only if the length is at most 65537 (65536 on a big-endian host) |
| Checksum.OnesSumIsFold | libcpe464/checksum.c:65-69 | deferring all carries to the end loses nothing against adding each back at once |
| Checksum.TwoFoldsSuffice | libcpe464/checksum.c:82-83 | the second fold leaves no carry |
| Checksum.RFCExample | libcpe464/checksum.c:58-86 | the worked example of section 3 of RFC 1071, in both byte orders |
| Checksum.OneByteDetected | libcpe464/checksum.c:70-79 | a message that checks still checks after one byte is replaced exactly when the byte is the same |
| Checksum.FieldChecksIff | rcopy.c:735-750 | which values stored in the zeroed field make recomputation return zero |
| Checksum.StampChecks | rcopy.c:934-949 | storing the computed checksum in the zeroed field makes recomputation return zero, for any length |
| Checksum.ByteOrderIndependent | libcpe464/checksum.c:70-79 | on a host of the other byte order the answer has its bytes swapped (section 2(B) of RFC 1071) |
| Checksum.StampPortable | libcpe464/checksum.c:70-79 | both byte orders stamp the same bytes, and a stamp made on one checks on the other |
| Checksum.PaddingIgnored | libcpe464/checksum.c:37-42 | trailing zero bytes never change the answer, whatever the parity |
| Checksum.ScratchChecksum | rcopy.c:735-742 | summing an oversized zero-filled scratch copy gives the packet's own checksum |
| Wire.MakeControlPacket | rcopy.c:888-949 | the RR or SREJ buffer filled field by field is the stamped layout |
| Wire.MakeDataPacket | README:303-310 | the data buffer filled field by field is the stamped layout of sequence, flag and payload, for payloads of up to 1400 bytes as documented (what server.c:517-578 builds instead is `Departures.BuilderIff`) |
| Wire.MakeFilenamePacket | rcopy.c:706-750 | the filename buffer is the stamped layout of name, buffer size and window size |
| Wire.StampBuffer | rcopy.c:744-750 | writing the checksum changes bytes 4 and 5 and nothing else |
| Wire.DataLayout | README:294-310 | number, flag 16 or 10 at byte 6, payload from byte 7 |
| Wire.ControlLayout | rcopy.c:888-949 | 11 bytes, flag 5 for RR and 6 for SREJ, local number first, the number meant in bytes 7 to 10 |
| Wire.FilenameLayout | rcopy.c:706-750 | 113 bytes, number 1, flag 8, name and zeros, buffer size at 107, window size at 109 |
| Wire.DataTakenIff | README:289-300 | of all stamped PDUs those flagged 10, 16, 17 or 18 are taken as data, 10 as the end, and no other unless the parser ignores the flag |
| Wire.ControlTakenIff | server.c:425-433 | those flagged 5 are taken as RR and 6 as SREJ, and no other |
| Wire.DataRoundTrip | README:309-310 | sequence, end flag and payload of the documented PDU come back as sent, on a host of either byte order |
| Wire.ControlRoundTrip | rcopy.c:888-949 | the acknowledged number comes back from bytes 7 to 10, and independently the local sequence from the header |
| Wire.FilenameRoundTrip | server.c:76-80 | the name comes back exactly when it is shorter than 100 bytes or a zero follows the server's array; the whole request exactly when moreover both sizes fit 16 bits |
| Injector.RunDrop | libcpe464/MsgEvents/errorDrop.cpp:29-63 | dropped exactly when dropping all or the number is listed |
| Injector.RunFlip | libcpe464/MsgEvents/errorFlipBits.cpp:9-27 | one byte is complemented in place and nothing else |
| Injector.ErrorDrop.constructor | libcpe464/MsgEvents/errorDrop.cpp:9-12 | a new drop event drops everything |
| Injector.ErrorDrop.SetDropAll | libcpe464/MsgEvents/errorDrop.cpp:14-19 | switches dropping all and keeps the list |
| Injector.ErrorDrop.SetDropSpecific | libcpe464/MsgEvents/errorDrop.cpp:21-27 | drops exactly the listed numbers from then on |
| Injector.PacketManager.RunMsgEvents | libcpe464/PacketManager.cpp:100-130 | the loop is the events applied in order up to the first drop |
| Injector.PacketManager.ProcessEvents | libcpe464/PacketManager.cpp:132-189 | the standard events, then at most one chance event |
| Injector.PacketManager.SendtoErr | libcpe464/PacketManager.cpp:346-408 | numbers the message modulo 2^32, alters only a private copy, and reports full length even when dropping |
| Injector.PacketManager.SendRun | libcpe464/PacketManager.cpp:369-405 | with only a drop list registered, exactly the unlisted message numbers of a run get through, in order |
| Injector.Conservation | libcpe464/PacketManager.cpp:100-189 | length is kept, a message is lost exactly when an event that ran drops it, and otherwise only the chance flip can alter it |
| Injector.StandardEffect | libcpe464/PacketManager.cpp:100-130 | standard events that drop nothing complement each byte as often as a flip hits it, and report a change exactly if one is a flip |
| Injector.ReportExactly | libcpe464/PacketManager.cpp:132-189 | what is reported: dropped, else what the chance event that fired did, else what the standard ones did |
| Injector.FlipAtExactly | libcpe464/MsgEvents/errorFlipBits.cpp:9-27 | all eight bits of the byte hit and nothing else |
| Injector.UnlistedInOrder | libcpe464/PacketManager.cpp:369-405 | with a drop list each unlisted message comes out behind exactly the unlisted ones before it, and nothing else does |
| Injector.VerifiedMeansUnmodified | libcpe464/PacketManager.cpp:159-178 | a message that checked when sent and checks on arrival is byte for byte the message sent |
| Injector.TwoFlipsCanHide | libcpe464/SettingsManager.cpp:227-248 | registering a flip as a standard event as well would break that |
| Injector.SettingsManager.constructor | libcpe464/SettingsManager.cpp:192-263 | what the two environment variables register, and nothing else |
| Injector.SettingsManager.SendErrInit | libcpe464/network-hooks.c:181-197 | each call adds a drop of everything if its drop flag asks for it and no variable is set, the same for flips, and nothing else |
| Injector.FlipRegisteredIff | libcpe464/SettingsManager.cpp:223-263 | for every environment and every run of sendErr_init calls, each with its own flags, a flip is never a standard event, and is a chance event exactly when the variable is set without a non-negative number, or unset and asked for by some call |
| Injector.DropRegisteredIff | libcpe464/SettingsManager.cpp:192-343 | for every environment, run of calls and message number, some chance event drops the message exactly when the drop variable is set without a non-negative number, or unset and some call asked for drops |
| Injector.ListedAt | libcpe464/SettingsManager.cpp:252-264 | the list holds the non-negative numbers, cut to 32 bits, in their order |
| Injector.DataLostOrIntact | libcpe464/PacketManager.cpp:346-408 | to a receiver that verifies, a data PDU is lost or is the packet sent |
| Injector.ControlLostOrIntact | libcpe464/PacketManager.cpp:346-408 | the same for RR and SREJ |
| CircularBuffer.WindowDistinct | README:164-167 | two numbers less than a window apart never share a slot |
| CircularBuffer.PutKeepsIff | window.c:67-77 | writing a slot destroys no other entry exactly when no other stored number shares it |
| CircularBuffer.ReleaseWithin | window.c:234-242 | emptying the slots from lower up to the new edge removes exactly the numbers below it |
| CircularBuffer.ReleaseIff | window.c:234-242 | outside the window too, emptying slots drops exactly the numbers that share one |
| Window.ReceiverBuffer.constructor | window.c:4-49 | an empty buffer expecting 0 with highest -1 |
| Window.ReceiverBuffer.InsertReceiverPacket | window.c:52-83 | the array is the map with the packet put in its slot, or unchanged beyond expected + W |
| Window.ReceiverBuffer.FlushBuffer | window.c:88-134 | emits the run that starts after the packet just written; every stored number outside it is still stored with its packet, and no other is |
| Window.FlushLeaves | window.c:102-130 | what a flush leaves, where it ends, and whether it wrote an EOF, for every buffer |
| Window.RunEndIsFirstGap | window.c:102-130 | the run that is flushed is the maximal one: everything before its end was stored, its end was not |
| Window.SenderWindow.constructor | window.c:140-189 | an empty window with edges 0 and W |
| Window.SenderWindow.InsertPacketIntoWindow | window.c:192-205 | the slot holds the packet, not acknowledged |
| Window.SenderWindow.AcknowledgePacket | window.c:208-216 | the flag of whatever the slot holds is set, all else kept |
| Window.SenderWindow.CheckPacketACKStatus | window.c:220-228 | the flag of the slot, false when empty |
| Window.SenderWindow.AdvanceSenderWindow | window.c:232-246 | the slots passed over are emptied, the edges slide up, and a number not above lower does nothing |
| Window.SenderWindow.CanSendMorePackets | window.c:250-252 | open exactly while the next number is below lower + W |
| Window.SenderWindow.LowestUnacknowledged | server.c:475-502 | finds a packet exactly if some slot from lower to upper holds one not acknowledged, and then the first; empty and acknowledged slots are passed over |
| Window.ScanIsFirst | server.c:480-495 | the same for every buffer and range |
| FileChunks.GetDataChunk | server.c:588-620 | the next chunk of the file, empty exactly at its end |
| FileChunks.ChunksRebuildFile | server.c:588-620 | the chunks put together are the file, none empty, all but the last full |
| Receiver.Rcopy.HandleDataPacket | rcopy.c:398-443 | new state and replies are the specification's, for every packet in every state; every buffered number from the new expected on is kept, and the replies are exactly those listed |
| Receiver.Rcopy.DoInOrderState | rcopy.c:443-530 | the expected packet is written and acknowledged; one beyond it is buffered and the gap asked for |
| Receiver.Rcopy.DoBufferState | rcopy.c:549-618 | packets beyond the gap are buffered until the missing one arrives |
| Receiver.Rcopy.DoFlushingState | rcopy.c:622-658 | the missing packet and the run behind it are written, expected is acknowledged, and the next gap, if any, asked for |
| Receiver.Rcopy.ResendLastControl | rcopy.c:532-546 | in agreement with the state, the packet resent is an RR for the packet waited for, and there is none only before anything was written |
| Receiver.ReceiveAgreesIff | rcopy.c:570-573 | handling a packet keeps state, highest and buffer in agreement exactly when it is not beyond expected + W |
| Receiver.AgreesOverRuns | rcopy.c:634-658 | over whole runs inside the window: IN_ORDER exactly when nothing is buffered exactly when expected is above highest, and in BUFFERING highest is stored and expected is not |
| Receiver.StoreLosesNothing | window.c:60-77 | an out-of-order packet inside the window is added and no live packet is lost |
| Receiver.MissingPacketSharesSlot | window.c:61-67 | the one number whose insertion could destroy a live packet is expected itself, exactly when expected + W is stored |
| Receiver.ReplyTellsExpected | README:213-264 | in the documented protocol every packet is answered with the number then waited for, by an RR when it moved and by an SREJ while a gap remains (the code: `AsWritten.EveryPacketAnsweredIff`) |
| Receiver.RepliesExactly | README:213-264 | one SREJ for a packet that leaves a gap, one RR for any other, an SREJ behind it if the flush stopped at another gap, and nothing else |
| Receiver.BufferExactly | README:224-264 | after any packet the buffer holds exactly what it held from the new expected on, and the packet if it is ahead inside the window |
| Receiver.ExpectedExactly | README:232-264 | expected moves past the packet and all stored right behind it, and no further; the receiver finishes exactly if an EOF is among them |
| Receiver.DuplicatesIdempotent | rcopy.c:422-428 | packets below expected, any number in any state, change nothing and are answered with RR expected |
| Sender.Server.FillWindow | server.c:367-414 | the fill loop reads, keeps and sends consecutive packets until the window closes or EOF is out |
| Sender.Server.HandleControl | server.c:425-441 | an RR slides the window and never resends, a stale one changes nothing, and an SREJ resends from the slot and changes nothing |
| Sender.RRExactly | window.c:232-246 | for every state and number: nothing is resent, and exactly the slots of the numbers passed over are emptied |
| Sender.SrejExactly | server.c:433-439 | nothing changes, and what is resent is what the slot holds, acknowledged or not |
| Sender.Server.TimeoutResend | server.c:475-502 | the timeout resends what the scan finds |
| Sender.AdvanceReleases | window.c:232-246 | an RR releases exactly the acknowledged packets and marks no other |
| Sender.OnControlKeepsIff | server.c:429-439 | the slots still hold exactly the outstanding packets if and only if nothing unsent was acknowledged; lower never moves back |
| Sender.SrejFaithful | README:189-201 | an SREJ for an outstanding number is answered from the slot that holds that packet as stored when first sent, and whatever else is resent is outstanding too (the code: `Departures.SrejNumberIff`, `AsWritten.SrejAnsweredIff`, `Departures.ResentIff`) |
| Sender.TimeoutFindsLower | server.c:475-501 | while anything is outstanding the scan finds the slot of the lower edge, so the branch that finds nothing is not taken (the bytes then sent: `Departures.ResentIff`) |
| Sender.OutstandingOverRuns | window.c:192-252 | over any sequence of fills, RRs and SREJs, stale and repeated ones included, the slots hold exactly the outstanding packets |
| Transfer.StepKeeps | server.c:362-504 | every step of sender, receiver or network keeps the cross-endpoint invariant |
| Transfer.ReceiveFaithful | rcopy.c:398-530 | handling any genuine packet keeps output and buffer faithful to the file |
| Transfer.OutputIsPrefix | README:210-264 | on packets, as a parser passes them on: in every reachable state the output is exactly the chunks below expected, a prefix of the file (with what else is on the socket: `Network.OutputIsPrefix`) |
| Transfer.CompletionExact | README:380-383 | finished exactly when everything including EOF has been flushed, and then the output is the file |
| Transfer.WindowsAgree | README:153-161 | lower, expected, next and lower + W are in order in every reachable state, RRs never exceed expected, and data in flight is genuine |
| Transfer.RetransmissionPossible | README:189-201 | in every reachable state every SREJ in flight is stale or its packet is still held, and a waiting sender's timeout finds the lower edge (the code: `AsWritten.SrejAnsweredIff`, `AsWritten.LeavesIff`) |
| Transfer.OldPacketHarmless | rcopy.c:422-428 | before the receiver has finished a duplicate changes nothing and its reply brings the sender level with it |
| Transfer.RoundProgress | server.c:444-503 | from every state in which the receiver has not finished one round of at most four steps reduces what remains, and ends with the last RR in flight if it finished |
| Transfer.TransferCompletes | README:189-201 | with a receiver that leaves when it has finished, and everything in flight lost: from every reachable state before that, at most 2(N + 1) rounds of at most four steps deliver the file and have it acknowledged |
| Transfer.AcknowledgedIff | README:379-398 | after the receiver has finished or given up the file can still be acknowledged exactly when it is, or RR(N + 1) is in flight to a sender that is up |
| Transfer.LeftForGood | rcopy.c:358-386 | an end that gave up, or a receiver that finished, never changes again |
| Transfer.EndpointStep | server.c:362-504 | each sending, timeout or delivery step is one call of the endpoint's method on the arrays of `window.c` |
| Transfer.FillIsSends | server.c:367-414 | the fill loop as one action is the sending step repeated |
| Network.StepKeeps | libcpe464/PacketManager.cpp:346-408 | every step over bytes keeps the endpoints' invariant, and all bytes in flight are rejected by the parser or are a packet of the file already sent |
| Network.OutputIsPrefix | README:210-264 | in every state reachable over bytes, from any PDUs of the handshake in flight and for any settings of the two injectors, the output is the chunks below expected, a prefix of the file, and finished means the whole file |
| Network.InFlightGenuine | libcpe464/PacketManager.cpp:346-408 | from the same starts, what a parser accepts is exactly a packet of the file, or a reply that acknowledges nothing unreceived, and the window edges stay in order |
| Network.LiftStep | libcpe464/PacketManager.cpp:346-408 | each step of the protocol on packets can be taken over bytes when no drop list is set |
| Network.TransferCompletes | README:189-201 | from every state reachable over bytes in which the receiver has not finished, everything in flight lost or corrupted, at most 8(N + 1) steps deliver the file and have it acknowledged |
| Network.AcknowledgedIff | README:379-398 | after the receiver has left, exactly when it is already, or bytes in flight are taken for RR(N + 1) |
| Network.DataBounded | libcpe464/PacketManager.cpp:346-408 | over any run the data messages in flight, taken in and lost are no more than those sent, resent and duplicated |
| Acceptance.OutputOfRuns | rcopy.c:344-441 | with any parser and any RRs and SREJs, true or not, the output of every run is made of the file's chunks, or of those without the second if a stray is taken for packet 1 |
| Acceptance.PrefixIff | rcopy.c:344-441 | with a given parser and given strays in flight, the output is a prefix in every run if and only if the file is empty, or (the parser verifies or the sender registers no flip) and (no stray is accepted or the file repeats with period b after its first b bytes) |
| Acceptance.WholeIff | rcopy.c:344-441 | the receiver finishes only with the whole file in every run under the same condition, but with a stray only for a file of one chunk |
| Acceptance.DocumentedParserSafe | README:289-300 | with the documented parser no PDU of the handshake and no packet of another child matters |
| Handshake.HandshakeClient.DoSendFilenameState | rcopy.c:75-177 | the client's transitions repeated: the first reply among nine polls decides, 33 for FILE_VALID and anything else for DONE, its sender is stored, and without one nine requests end it |
| Handshake.SendDecided | rcopy.c:87-165 | the same of the specification, from any turn on |
| Handshake.HandshakeClient.DoFileValidState | rcopy.c:181-267 | the client's transitions repeated: the first 9 or 32 among nine polls decides for GET_DATA or DONE, without one it is back at sending; the address is that of the last reply read |
| Handshake.ValidDecided | rcopy.c:236-257 | the first verdict within the turns left decides, whatever other replies come before it |
| Handshake.ValidUndecided | rcopy.c:203-267 | without a verdict the ninth turn goes back to sending |
| Handshake.TransferFromOpener | rcopy.c:218-240 | in GET_DATA the stored address is that of a child that opened the requested file, whatever the losses, altered flags and early data packets, and however many children |
| Handshake.AtMostNineRequests | rcopy.c:87-123 | each entry to SEND_FILENAME sends at most nine requests |
| Handshake.RetryGoesToChild | rcopy.c:128-155 | a repeated request reaches the main server exactly if no packet ever came back; after that it goes to a child |
| Handshake.HandshakeCompletes | rcopy.c:75-267 | from every reachable state in which the client has heard nothing, five steps lead to GET_DATA with a serving child if the file opens, and to DONE if not |
| Handshake.SilenceEnds | rcopy.c:87-123 | if nothing comes back it is over after the ninth request |
| Handshake.RequestsConserved | server.c:76-93 | over any run every request sent or duplicated is in flight or was taken, and there is one child for each the main server took |
| Handshake.EndsOnce | server.c:240-270 | a refusing child ends at most once |
| Handshake.LeftInFlight | rcopy.c:181-240 | what the handshake leaves in flight is from a child, flagged 33, 9, 32 or 16, or the complement |
| Handshake.AcceptanceCanLinger | rcopy.c:181-240 | a reachable state in GET_DATA with an acceptance still in flight |
| Departures.RRNumberIff | server.c:418-432 | the edge taken from an RR is the acknowledged number exactly when it is the local sequence plus one |
| Departures.SrejNumberIff | server.c:427-439 | an outstanding packet is resent for an SREJ that asks for it exactly when the receiver's SREJ counter shares its slot |
| Departures.OpenIff | window.c:243-251 | the window test as written is the documented one except in the first window, one packet past its end; also beyond the window |
| Departures.OverrunLosesLower | window.c:193-204 | sending that packet overwrites the lower edge, and an SREJ for it is answered with the wrong packet |
| Departures.StaleAckIff | window.c:208-216 | after a stale RR is marked, the timeout still finds the lower edge exactly when the two do not share a slot, and otherwise the next packet outstanding |
| Departures.HighestIff | window.c:79-82 | the comparison is the intended one exactly when highest is no longer -1 |
| Departures.FlushLosesTail | window.c:72-114 | whatever length a packet was stored with it is never flushed as it was buffered; with the length received it loses its last seven bytes or has no valid length |
| Departures.FlushOfPointer | rcopy.c:568 | with the length the code gives, the flushed length is negative for every packet |
| Departures.WriteExactIff | rcopy.c:877-883 | an in-order write is exact exactly for a full chunk |
| Departures.GapFillIff | window.c:95-96 | flushing without the missing packet gives the right output exactly when that packet is empty |
| Departures.PayloadKeptIff | server.c:385-398 | the chunk is sent whatever the heap holds exactly when it is no longer than the buffer size modulo 256 |
| Departures.FilePayloadsKeptIff | server.c:385-398 | every chunk of a file is kept exactly when the buffer size is below 256 or the file no longer than that remainder |
| Departures.BuilderIff | server.c:517-578 | a verifying receiver gets the packet of the chunk exactly when the heap held the rest of the chunk and the byte wrongly summed is zero |
| Departures.ResentIff | server.c:433-439 | a resent PDU is never the PDU first sent; it checks exactly when the seven extra bytes add a multiple of 65535, and is then taken for a longer packet |
| Departures.UnverifiedIff | rcopy.c:320-343 | without verification a message taken in is the message sent, for all draws, exactly when no flip is registered or the message is on the drop list |
| Departures.PaddingIff | server.c:548-578 | the data stamp checks exactly when the byte wrongly summed is zero |
| Departures.EofAsWrittenIff | rcopy.c:344-367 | stopping at the first EOF packet would leave the whole file exactly when every chunk had been written; but EOF is handled as data first, and after that only if EOF had been handled before |
| Departures.EofCanOvertake | rcopy.c:358-367 | with the documented sender, a reachable state in which EOF is in flight before anything was written |
| AsWritten.FirstFillHoldsIff | server.c:368-414 | after the first fill every packet sent is still held exactly when the file has at most W chunks |
| AsWritten.SenderStalls | server.c:362-504 | whatever arrives, the sender as written sends every packet number of the file if and only if it has at most W + 1 chunks |
| AsWritten.LeavesIff | server.c:367-381 | the child is still there after the first fill exactly when the file has more than W chunks, and otherwise for good gone |
| AsWritten.SrejAnsweredIff | server.c:416-441 | after any run, an SREJ for a packet that was sent is answered with it exactly when the child is still there, the SREJ's own number shares its slot, it is not packet 0 and its slot is not freed |
| AsWritten.TimeoutAsWritten | server.c:475-501 | after any run with the window closed the timeout resends packet W, or packet 1 once packet 0 is acknowledged, and never packet 0 |
| AsWritten.RefillEnds | server.c:367-391 | after an RR that frees more than slot 0 the child leaves at the end of the file or dies on a freed slot |
| AsWritten.SrejCrashesIff | server.c:433-439 | an SREJ kills it exactly if its slot was freed |
| AsWritten.ReceiverWritesOne | rcopy.c:398-530 | over any run, whatever a write of negative length does, the receiver as written writes the bytes of at most one of the packets that arrive, the first chunk's exactly if it arrives first |
| AsWritten.WholeFileWrittenIff | rcopy.c:398-618 | over any run of packets of the file the bytes written are the file exactly if it is empty, or one full chunk whose packet, still holding it, arrived first |
| AsWritten.WholeFileAlwaysIff | rcopy.c:866-883 | a run that begins with the first chunk always writes a non-empty file whole exactly when it is one full chunk of fewer than 256 bytes |
| AsWritten.AnswerIff | rcopy.c:422-546 | which packets are answered, by mode, number and stored packet, and when the answer names the number waited for |
| AsWritten.OldAnsweredIff | rcopy.c:532-546 | after any run an old packet gets an RR for the number waited for exactly if something has been written |
| AsWritten.EveryPacketAnsweredIff | rcopy.c:398-618 | every packet of a run is answered exactly when all of them are packet 0 |
| AsWritten.BufferedIff | rcopy.c:549-618 | in BUFFERING a packet is stored exactly if it is inside the window, and the gap asked for once a poll, ten times at most |
| AsWritten.UnfilledGapEnds | rcopy.c:580-618 | a gap not filled within ten polls is the end: nothing is written whatever follows |
| AsWritten.FirstFlush | window.c:88-134 | the first flush meets the negative write exactly if packet 1 was buffered, and writes nothing either way |
| AsWritten.FilledGapIsSkipped | rcopy.c:606-609 | a run in which chunk 1 is written without chunk 0 |

## Left out

- Widths of sequence numbers: natural numbers at the endpoints, `int` and `uint32_t` there; the two agree while the number of chunks plus the window stays below 2^31. In `Network` numbers keep 32 bits on the wire, and its theorems are for files of fewer than 2^32 - 1 chunks.
- Sockets, poll timing, fork and signals, address lookup, TCP demos: poll outcomes are arguments or steps that may always happen.
- Files: the source is a byte sequence, the output an appended one; failing reads and writes are not modelled.
- The 1407-byte slot storage: a slot holds a packet, not its bytes, and an empty slot stands for both NULL and invalid.
- Wire.MakeDataPacket: builds the documented PDU from payloads of up to 1400 bytes; the code's own builder is `Departures.SentAsWritten`, and the EOF PDU has no builder there.
- Sender.SrejFaithful: says which packet the documented sender resends; the number the code looks up, when it has left, and the seven bytes it adds are in `Departures.SrejNumberIff`, `AsWritten.SrejAnsweredIff` and `Departures.ResentIff`.
- Sender.TimeoutFindsLower: likewise.
- Transfer.RetransmissionPossible: likewise.
- Memory: allocation failure and freeing as such are not modelled; where the code reads bytes nobody wrote (heap behind a chunk, behind a slot's PDU, behind the filename) they are arbitrary arguments, the same at each read. The 114th byte of the filename PDU is not modelled.
- Flags 17 and 18: a resend keeps flag 16, as the code has it.
- The retry loop around a failing `sendto` in the receiver: every send succeeds, as it does for the injector even when it drops the message; giving up, which in the receiver as written the first poll timeout already causes (rcopy.c:370-386), is a step that may happen at any time.
- Injector events: values rather than objects, `infoSeqNo` changes nothing and its report is not kept, and error rates and `drand48` are arbitrary draws.
- The children of one handshake each start a transfer of the same file; only one sender talks to the receiver in `Transfer` and `Network`, and in `Acceptance` the packets of the others are strays that can arrive at any time. Other clients of the main server are not modelled.
- AsWritten: the two machines are on values, with slots reduced to the numbers they hold; the sender counts packet numbers (their bytes are in `Departures`), sends succeed, what a write of negative length does (stop, or fail and go on) is an argument, and the poll that reads the missing packet inside the retry loop is an argument.
- Acceptance.PrefixIff: the endpoints are the documented ones, only the parsers are the code's; and it assumes no drop list, since one could stop the runs that go wrong (`Acceptance.OutputOfRuns` makes no such assumption).
- Acceptance.WholeIff: likewise.
- Network.TransferCompletes: assumes no drop list in either environment. Message numbers are arguments there, not counters, and with a list which numbers come up would decide.
- Argument and environment parsing, logging, debug printing: nothing to prove that the rest needs.
