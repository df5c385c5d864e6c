# Protocol engines of the modem flashing tool

The tool downloads firmware into modems over serial ports, telnet, ADB and fastboot. Under its windows sit
byte-level protocol engines that touch the outside world only through "send these bytes" and "receive some
bytes". This project models those engines and proves what they guarantee, and where they do not.

| files | what they model |
|---|---|
| `Crc16.dfy`, `Crc16Theory.dfy` | the table-driven 16-bit FCS, as a refinement of the bit-serial register of appendix C of RFC 1662 |
| `Hdlc.dfy`, `HdlcTheory.dfy`, `Packet.dfy` | HDLC-like framing (section 4 of RFC 1662): the frame on the line, the receiver as a function of what the port delivers, and `CPacket` in place over its 4096-byte buffer |
| `QMethod.dfy`, `TelnetSystem.dfy` | option negotiation (section 7 of RFC 1143) for one option, and two clients with all 256 options joined by FIFO channels |
| `Telrcv.dfy`, `Telnet.dfy` | the resumable byte parser, its encoders, and `TelnetClient` in place |
| `TelnetWire.dfy` | two clients joined by octets, read in pieces of any size, as a refinement of the system of messages |
| `Words.dfy`, `Link.dfy`, `LinkEnd.dfy` | numbers on the wire; a device with memory behind a link that loses, delays, repeats and reorders whole frames both ways |
| `HostDl.dfy`, `HostDlTurns.dfy`, `HostDlClient.dfy` | image download with addressed acknowledgements and bounded resend, and what every response makes of it |
| `DlPrg.dfy`, `DlPrgClient.dfy` | boot program download with acknowledgements that carry no address |
| `Usb.dfy`, `UsbHandle.dfy` | endpoint calls that move what they like, and the loops of `usb_write` and `usb_read` |
| `UsbPacket.dfy`, `TransportUsb.dfy` | ADB packets with magic and checksum over those pipes |
| `AdbStream.dfy`, `AdbSync.dfy`, `AdbHost.dfy`, `AdbOverUsb.dfy` | the byte stream `readx` makes of packets, file sync and the shell response on top, `adbhost` in place, and a file sent end to end over two USB pipes |
| `HandleList.dfy` | the circular doubly linked list of opened devices |
| `Fastboot.dfy`, `FastbootQueue.dfy` | the fastboot command protocol, the linked queue of actions and its executor |
| `Bytes.dfy`, `Seqs.dfy` | octets, result codes, and facts about sequences |

What the code changes in place is a class here (`CPacket`, `TelnetClient`, `CDLData`, `CDLPrg`, `UsbHandle`,
`Apacket`, `AdbHost`, `UsbWindows`, `FastbootEngine`), and every method is proved equal to a function of its old
state; the theorems are about those functions. The environment is always a parameter: a finite script of what
ports, links, endpoints, sockets and devices do next. When a script runs out, the next operation fails.

## What came out differently from what the code or its comments suggest

* `rec_do` empties `himq` where its dual `rec_will` empties its own queue (`src/telnet.cpp:381`). The model keeps
  the line as written. It matters in exactly one state (`QMethod.MiswiredExactly`), two clients still never loop
  (`TelnetSystem.LoopFree`) and never disagree (`TelnetSystem.Safety`), but a user's disable of either side can lose
  (`TelnetSystem.LastDisableCanLose`, `TelnetSystem.LastRemoteDisableCanLose`); `QMethod.LastLocalDisableWins` and
  `QMethod.LastRemoteDisableWins` say exactly when.
* Behind a CR the parser takes an IAC as data, so the data round trip holds exactly for payloads with no IAC where
  the parser stands behind a CR (`Telrcv.DataRoundTrip`); a CR behind a CR is data itself, and an IAC may follow it.
  For the same reason a negotiation sent right behind a CR is taken for data (`Telrcv.MessageBehindData`).
* `SendWritePacket` takes its length as a signed number but is handed an unsigned one: for images of 2 GB and more
  it reports success and sends nothing (`HostDl.CompleteIffBelow2GB`).
* A chunk is sent again only after a complaint, silence or a failed send; an acknowledgement of another address, such
  as an old one that comes late, ends the download at once (`HostDlTurns.WrongAddressEnds`).
* The acknowledgement of a 32-bit write names no address: a repeated one is taken for the next chunk
  (`DlPrg.StaleAckAccepted`), so over an arbitrary link success is to be trusted exactly for images of one chunk
  (`DlPrg.CompleteIffOneChunk`). A NAK whose reason byte is zero passes for ACK (`DlPrg.AcknowledgedExactly`).
* The loop of `SendHDLCPkt` has a 16-bit index and does not end for 65536 bytes or more (`Packet.HdlcLoopEndsIff`).
* `readx` drops the verdict of `read_packet`: a packet that failed its checksum is delivered as data
  (`AdbOverUsb.DamageDelivered`, `AdbStream.FailureIgnored`). A read that crosses a packet boundary fails and loses
  what was left (`AdbStream.CrossingLoses`), so a file arrives exactly if no message of it straddles two packets
  (`AdbSync.RecvIffCut`). A shell response cut short looks complete (`AdbStream.CutShortUnnoticed`).
* `write_packet` drops the verdict of `write_to_remote`, so packets go on being written behind one that failed
  halfway, and `write_data_buffer` and `write_data_file` always report success. Over every pipe that success can be
  trusted exactly if there was nothing to send (`UsbPacket.SureIffNothing`, `AdbHost.AdbHost.ReportsSuccessAnyway`,
  `AdbHost.AdbHost.FileReportsSuccessAnyway`).
* `handle_shell_response` clears grown memory through the pointer from before `realloc`
  (`src/adbhost.cpp:382`): if the block moved, it writes to freed memory. Exactly the responses of at most 4096
  octets are safe from that (`AdbStream.RespondsIffFits`).
* A device may answer `download` with a smaller size, or with a bare OKAY, and the download counts as done
  (`Fastboot.DownloadSucceedsIff`).
* `image_size` adds the sizes of all actions, in 32 bits, and a requirement's size is its number of values: progress
  ends at 100 exactly if there are none (`Fastboot.EndsAtHundredIff`), and when the sum wraps it can exceed 100, and
  even int (`Fastboot.ProgressCanOverflow`, `Fastboot.ReportsBelowIff`).
* `fb_queue_command` passes the command as a format string (`Fastboot.FormattedIff`, `Fastboot.FormattedExactly`).

## Model

| member | source | states |
|---|---|---|
| `Crc16.TableEntry` | src/pkt.cpp:71-104 | every table entry is its index clocked eight times through the polynomial 0x8408; one wrong entry would break it |
| `Crc16Theory.StepIsSerial` | src/pkt.cpp:106-107 | one table step is eight clocks of the bit-serial register, low bit first |
| `Crc16Theory.TableRefinesRegister` | src/pkt.cpp:67-107 | the table-driven CRC of any byte sequence from any register value is the bit-serial register clocked over its bits |
| `Crc16Theory.ResidueIffFcs` | src/pkt.cpp:31-38 | the register ends at 0xF0B8 if and only if the last two bytes are the complemented CRC of the rest, low byte first |
| `Crc16Theory.BurstChangesRegister` | src/pkt.cpp:17-29 | any change confined to sixteen consecutive bits, anywhere in any message, changes the final register |
| `Crc16Theory.ByteBurstChangesCrc` | src/pkt.cpp:71-107 | replacing one byte or two adjacent bytes anywhere in a sequence of any length changes its CRC |
| `HdlcTheory.StuffTransparent` | src/pkt.cpp:115-126 | stuffed text holds no flag, whatever the payload |
| `HdlcTheory.UnescapeStuff` | src/pkt.cpp:298-310 | undoing the escapes of stuffed text gives the payload back |
| `HdlcTheory.GatherStuffed` | src/pkt.cpp:1180-1232 | the receiver gathers stuffed text back byte for byte up to the size of its buffer |
| `HdlcTheory.GatherOverrun` | src/pkt.cpp:1180-1232 | one byte more than the buffer holds is refused as soon as it arrives, and the rest stays on the line |
| `HdlcTheory.ContentReceived` | src/pkt.cpp:1093-1252 | the verdict on any non-empty content between flags, valid or not, and that exactly the frame is consumed |
| `HdlcTheory.OverrunRecovers` | src/pkt.cpp:1093-1252 | after a frame too large for the buffer, the next receive hunts through what is left of it and gets the next frame |
| `HdlcTheory.ReadFailureReported` | src/pkt.cpp:1093-1252 | a read that fails or times out ends the receiver with EPORTRECEIVE, wherever in noise, flags, contents or escape it happens |
| `HdlcTheory.VerdictIffValid` | src/pkt.cpp:1182-1199 | content is too short below three bytes, accepted if it ends in its own FCS, and otherwise a CRC error |
| `HdlcTheory.AcceptedIffValid` | src/pkt.cpp:1093-1252 | RcvHDLCPkt succeeds if and only if what the port delivers is noise, flags, and the escaped form of 3 to 4096 bytes with a correct FCS, and it leaves exactly the rest |
| `HdlcTheory.FitsIff` | src/pkt.cpp:229-256 | the sender's bound in octets on the line: a frame fits if and only if it has at most 4091, with or without an opening flag |
| `HdlcTheory.FrameReceived` | src/pkt.cpp:1093-1252 | a frame that was not broken comes back as payload and FCS, through any flag-free noise and extra flags before it |
| `HdlcTheory.RoundTrip` | src/pkt.cpp:837-878 | any sequence of payloads sent with SendHDLCPkt, with noise and flags between, is received payload by payload, in order, consuming exactly what was sent |
| `HdlcTheory.DamageDetected` | src/pkt.cpp:1182-1199 | a valid frame with one byte or two adjacent bytes of its contents replaced is always refused with the CRC error |
| `Packet.SerialPort.Send` | src/serialport.cpp:196-240 | the bytes go out in order, and whatever was waiting to be read is purged first |
| `Packet.CPacket.AddByte` | src/pkt.cpp:229-256 | the escaped byte is appended exactly if it fits with 5 to spare, otherwise the packet is marked broken and nothing is stored |
| `Packet.CPacket.AddAll` | src/pkt.cpp:858-860 | after the payload the packet is broken exactly if some byte did not fit; otherwise the buffer holds the stuffed payload; for every length the loop index can count |
| `Packet.HdlcLoopEndsIff` | src/pkt.cpp:858-860 | the loop of SendHDLCPkt with its 16-bit index ends if and only if the payload has fewer than 65536 bytes |
| `Packet.CPacket.CrcOfBuilt` | src/pkt.cpp:296-311 | the CRC found by un-escaping the sender's own buffer is the CRC of the raw payload |
| `Packet.CPacket.Finish` | src/pkt.cpp:285-320 | the packet ends unbroken exactly if start, stuffed payload and stuffed FCS fit; then FCS and flag are appended; no store leaves the buffer |
| `Packet.CPacket.SendHdlc` | src/pkt.cpp:837-878 | EPACKETBROKEN exactly if the frame does not fit; an unbroken frame has at most 4091 bytes and exactly it goes out |
| `Packet.CPacket.SendDiag` | src/pkt.cpp:789-822 | EPACKETBROKEN exactly if the frame does not fit, for every 32-bit length; otherwise exactly the DIAG frame, which has no opening flag, goes out |
| `Packet.CPacket.RcvHdlc` | src/pkt.cpp:1093-1252 | the four-state machine in place computes the receiver function: result, content and what is left on the port |
| `Packet.CPacket.GatherByte` | src/pkt.cpp:1176-1240 | one byte in the gather state: store, escape, or judge the frame |
| `Packet.CPacket.Receive` | src/pkt.cpp:646-706 | at most the requested number of bytes is copied, the rest of the caller's buffer keeps its bytes, and nothing is copied on failure |
| `Packet.CPacket.RcvDiag` | src/pkt.cpp:1000-1075 | the DIAG receiver computes its function, and fails on a closed port |
| `Packet.DiagRoundTrip` | src/pkt.cpp:348-384 | a DIAG frame the sender built comes back as payload, FCS and closing flag |
| `Packet.DiagCutShort` | src/pkt.cpp:1000-1075 | the DIAG receiver succeeds with what it has when a read times out, and fails when one fails, also behind an escape |
| `Packet.DiagOverrun` | src/pkt.cpp:1057-1062 | the byte that finds the buffer full is refused, and the rest of the frame stays on the line |
| `QMethod.Answer` | src/telnet.cpp:100-430 | no request and no message is answered by more than one message |
| `QMethod.QueueIsAPendingRequest` | src/telnet.cpp:174-264 | receiving with a full queue equals receiving with an empty one and then asking for the opposite, if and only if it is not the error branch |
| `QMethod.ErrorBranchObeysTheUser` | src/telnet.cpp:192-202 | in the error branch the side becomes what the user asked for last, without a message |
| `QMethod.MiswiredExactly` | src/telnet.cpp:373-384 | rec_do differs from the dual of rec_will in exactly one state, WANTYES with a full queue |
| `QMethod.MiswiredIsAWithdrawal` | src/telnet.cpp:381 | in that state it acts as if the user's queued disable had been withdrawn |
| `QMethod.StaysDisabled` | src/telnet.cpp:341-430 | a side that does not prefer the option and is disabled never reaches YES, whatever arrives and whatever is asked about the other side |
| `QMethod.LastLocalDisableWins` | src/telnet.cpp:266-338 | a local disable as the last request is final if and only if it was not made in WANTYES |
| `QMethod.LastRemoteDisableWins` | src/telnet.cpp:100-170 | a remote disable as the last request is final if and only if it was not made in WANTYES |
| `TelnetSystem.StepKeepsInv` | src/telnet.cpp:100-430 | every request and every delivery, for all 256 options at once, keeps the invariant of the joint system, and no message meets an error branch |
| `TelnetSystem.RunKeepsInv` | src/telnet.cpp:100-430 | so does every run |
| `TelnetSystem.Safety` | src/telnet.cpp:100-430 | in every reachable state at most two messages per option and direction are in flight, no error branch is next, and with empty channels both ends agree on NO or YES with empty queues |
| `TelnetSystem.DeliverRank` | src/telnet.cpp:174-264 | every delivery lowers an explicit rank over states, queue bits and channels |
| `TelnetSystem.LoopFree` | src/telnet.cpp:341-430 | without further requests a run of deliveries is no longer than that rank, at most 18 per option |
| `TelnetSystem.LastDisableHolds` | src/telnet.cpp:100-338 | a disable of either side made outside WANTYES as the last request keeps the option off there, at both ends once the line is quiet |
| `TelnetSystem.LastDisableCanLose` | src/telnet.cpp:381 | a run in which a user enables and then disables an option, and it ends up on at both ends |
| `TelnetSystem.LastRemoteDisableCanLose` | src/telnet.cpp:381 | a run against a peer that prefers the option on both sides, in which a user's last request about either side is a disable, and both sides end up on at both ends |
| `TelnetSystem.RequestSettles` | src/telnet.cpp:100-430 | a request on a quiet line sends the verb for it or, if nothing is to change, none; deliveries then settle it: a disable turns the side off at both ends, an enable on exactly if it was on or the peer prefers it, and nothing else changes |
| `TelnetWire.OctetsRefineMessages` | src/telnet.cpp:47-63 | every run of two clients over octets, cut into reads anywhere and mixed with requests, is a run of the system of messages |
| `TelnetWire.WireSafety` | src/telnet.cpp:679-842 | over octets, each end has called for a front part of what the other sent, in order, and taken none of it for data; once all is read each has called for all of it and they agree on every option |
| `Telrcv.ChunkIndependent` | src/telnet.cpp:679-842 | parsing a and then b equals parsing a + b: same parser state, buffer, options, calls, messages and data |
| `Telrcv.DataRoundTrip` | src/telnet.cpp:704-716 | the encoded payload is taken as exactly its bytes (less NULs after CR) with no call and nothing else changed, if and only if no IAC comes where the parser stands behind a CR |
| `Telrcv.NeverBack` | src/telnet.cpp:704-839 | once the parser has lost the payload, no further payload brings it back |
| `Telrcv.MessagesHeard` | src/telnet.cpp:734-793 | any sequence of negotiations in the octets of send_negotiation makes exactly one call each, in order, with its verb and its option, and the options and answers of taking them one by one |
| `Telrcv.OtherCommandIgnored` | src/telnet.cpp:757-763 | IAC with any other command octet changes nothing |
| `Telrcv.MessageBehindData` | src/telnet.cpp:697-716 | a negotiation behind a payload is heard if and only if the parser does not stand behind a CR there |
| `Telrcv.SuboptionDelivered` | src/telnet.cpp:794-839 | IAC SB, an escaped sub-option, IAC SE: suboption() is called once, on the first 510 bytes at most, and nothing else changes but its buffer |
| `Telrcv.CommandClosesSuboption` | src/telnet.cpp:804-826 | in an open sub-option, IAC and anything but SE or IAC hands over what was collected and is then taken as in DATA |
| `Telrcv.MessageInSuboption` | src/telnet.cpp:804-826 | a negotiation that meets an open sub-option closes it, with its call, and is then heard |
| `Telrcv.Terminated` | src/telnet.cpp:10-15 | storing the terminator and stepping back leaves at most 510 bytes and stays in the 512-byte buffer |
| `Telnet.TelnetClient.constructor` | src/telnet.cpp:915-960 | all options off, nothing sent, and suppress-go-ahead as the only preference |
| `Telnet.TelnetClient.SendNegotiation` | src/telnet.cpp:47-63 | IAC, the octet of the verb and the option go out, in this order |
| `Telnet.TelnetClient.SetLocalOption` | src/telnet.cpp:266-338 | exactly the local side of exactly this option takes the step of the negotiation function, and exactly its answer is sent |
| `Telnet.TelnetClient.SetRemoteOption` | src/telnet.cpp:100-170 | the same for the remote side |
| `Telnet.TelnetClient.RecWill` | src/telnet.cpp:174-219 | exactly this option changes, as the negotiation function says, and exactly its answer is sent |
| `Telnet.TelnetClient.RecWont` | src/telnet.cpp:223-264 | the same for WONT |
| `Telnet.TelnetClient.RecDo` | src/telnet.cpp:341-387 | the same for DO, with the write to the other side's queue |
| `Telnet.TelnetClient.RecDont` | src/telnet.cpp:389-430 | the same for DONT |
| `Telnet.TelnetClient.Negotiate` | src/telnet.cpp:34-46 | every preferred option below 40 is requested, in order, and no other; when nothing was negotiated yet that is one WILL per preferred side of ours and one DO per preferred side of theirs, all of them then WANTYES |
| `Telnet.TelnetClient.HandleSuboption` | src/telnet.cpp:609-620 | the sub-option handed over is the buffer up to its end |
| `Telnet.TelnetClient.SbTerminate` | src/telnet.cpp:804-836 | the terminator is stored, stepped over, and the buffer handed over |
| `Telnet.TelnetClient.HandleByte` | src/telnet.cpp:704-839 | one turn of the switch computes the parser function, including the re-dispatch of process_iac |
| `Telnet.TelnetClient.ReceiveByte` | src/telnet.cpp:704-839 | recorded data and the open data range together are always exactly the data so far |
| `Telnet.TelnetClient.Receive` | src/telnet.cpp:679-842 | telrcv computes the parser function on its whole input, and reports an IAC met in DATA exactly if there was one |
| `Telnet.TelnetClient.ReceiveTwice` | src/telnet.cpp:679-842 | two calls of telrcv leave the state that the parser function gives on the joined input, so where the input is cut does not matter |
| `Telnet.TelnetClient.TakeInput` | src/telnet.cpp:1133-1156 | a turn of the reading loop requests the preferences exactly once, after the first input in which the peer negotiates |
| `Telnet.Socket.SendTelnetData` | src/telnet.cpp:845-913 | however the socket splits the writes, the wire carries the escaped text, or strictly less of it on failure |
| `Link.DecodeFrame` | src/pkt.cpp:837-878 | the device understands exactly the payload of a frame the host built |
| `Link.Heard` | src/pkt.cpp:1093-1252 | after a transmission the host hears an answer the device gave, a message of the device, or nothing |
| `LinkEnd.SendCommand` | src/pkt.cpp:588-640 | sending a command over CPacket is one transmission of the link model |
| `HostDl.Accepted` | src/hostdl.cpp:842-890 | a response is taken for the acknowledgement of a chunk if and only if it is a write acknowledgement whose next four bytes are the chunk's address, little-endian |
| `HostDl.WriteSafe` | src/hostdl.cpp:668-798 | whatever the link does: chunks go out in order, each at most MAX_RESEND times; EOK means every chunk was sent, none skipped, and every byte is stored |
| `HostDl.DownloadSafe` | src/hostdl.cpp:668-798 | after EOK the image is in device memory, and no frame still in the link can undo it |
| `HostDl.CompleteIffBelow2GB` | src/hostdl.cpp:249-293 | EOK means a complete image for every link if and only if the image is below 2 GB |
| `HostDl.PromptSucceeds` | src/hostdl.cpp:707-766 | over a link that delivers everything promptly the download succeeds |
| `HostDl.PatientSucceeds` | src/hostdl.cpp:707-766 | resending helps: the download succeeds if for every chunk one of the MAX_RESEND turns is prompt and those before it lost the answer, timed out or met a CRC complaint |
| `HostDlTurns.TurnRead` | src/hostdl.cpp:706-760 | for every response there is, whether the turn ends the chunk, is tried again, or ends the download, told from the octets of the response |
| `HostDlTurns.ResendTestIdle` | src/hostdl.cpp:742-759 | the test at the end of a turn never asks for a resend; only the failures before it do |
| `HostDlTurns.ChunkDecided` | src/hostdl.cpp:706-766 | after fewer than MAX_RESEND complaints, the acknowledgement of this address moves on to the next chunk, and any other response ends the download with EFAILED or EDATARSP; one frame was sent per turn and what was still to come is never looked at |
| `HostDlTurns.WrongAddressEnds` | src/hostdl.cpp:749-754 | an acknowledgement of another address ends the download with EFAILED after exactly one more frame |
| `HostDlTurns.ComplaintsRunOut` | src/hostdl.cpp:706-766 | MAX_RESEND error responses or CRC complaints about one chunk end the download with the last of them |
| `HostDlTurns.SilenceEnds` | src/hostdl.cpp:728-740 | MAX_RESEND turns without an answer end it with EPORTRECEIVE |
| `HostDlTurns.UnpluggedEnds` | src/hostdl.cpp:709-725 | a device that stays unplugged ends it with EPACKETSEND |
| `HostDlTurns.PluggedAgain` | src/hostdl.cpp:709-725 | a device plugged in again during a try is sent the chunk again, and the download succeeds if the rest goes patiently |
| `HostDlClient.CDLData.BuildWrite` | src/hostdl.cpp:689-698 | the command holds the code, the address low byte first and the chunk |
| `HostDlClient.CDLData.GetAck` | src/hostdl.cpp:842-957 | code, error code and result for every response there is |
| `HostDlClient.CDLData.TryOnce` | src/hostdl.cpp:709-759 | one send and its acknowledgement: try again, give up, or done |
| `HostDlClient.CDLData.SendChunk` | src/hostdl.cpp:707-766 | the resend loop makes at most MAX_RESEND turns and ends as its function says |
| `HostDlClient.CDLData.SendWritePacket` | src/hostdl.cpp:668-798 | the whole loop over an image computes the download function |
| `DlPrg.GoNamesBase` | src/dlprg.cpp:571-613 | for address types 1 to 3 the go command names, high byte first, the base the image was written to |
| `DlPrg.Write32Understood` | src/dlprg.cpp:711-722 | the device reads the address and the chunk back off the command |
| `DlPrg.NeverBroken` | src/dlprg.cpp:668-722 | no write command is ever a broken frame, whatever its bytes |
| `DlPrg.AcknowledgedExactly` | src/dlprg.cpp:856-890 | success is CMD_ACK or a NAK whose third byte is zero; any other NAK is EACKFAILED, and anything else EACKPACKET |
| `DlPrg.ExchangeInStep` | src/dlprg.cpp:724-746 | over a link in step, a successful exchange has stored its chunk, and no exchange stores anything else |
| `DlPrg.LoadSafe` | src/dlprg.cpp:668-820 | for images of any length: over a link that delivers no old request and returns no old answer, success means the type is 1 to 3 and memory from the base SendGoCmd names equals the image |
| `DlPrg.PromptLoads` | src/dlprg.cpp:668-820 | over a link that delivers everything promptly, every type's load succeeds and the image is where the go command points |
| `DlPrg.LoadSends` | src/dlprg.cpp:668-820 | whatever the link does, the writes go out in order, each at most once and none skipped, and success means that all of them went out |
| `DlPrg.RefusalEnds` | src/dlprg.cpp:736-747 | a response that is no acknowledgement ends the load at once, with the error for it, after one more write |
| `DlPrg.SilenceEndsLoad` | src/dlprg.cpp:736-741 | no answer ends it at once as well, with EPORTRECEIVE |
| `DlPrg.CompleteIffOneChunk` | src/dlprg.cpp:668-820 | over every link that starts empty, whatever it loses, delays, repeats and reorders, success means the whole image is in memory, if and only if the image is a single chunk of at most 1024 bytes |
| `DlPrg.StaleAckAccepted` | src/dlprg.cpp:875-878 | for every longer image, a link that repeats the first acknowledgement makes the load succeed with all but the first chunk missing |
| `DlPrgClient.CDLPrg.BuildWrite32` | src/dlprg.cpp:711-722 | address and length high byte first, then the chunk |
| `DlPrgClient.CDLPrg.GetAck` | src/dlprg.cpp:856-890 | the result of waiting for an acknowledgement, with the check every caller makes |
| `DlPrgClient.CDLPrg.SendWrite32Cmd` | src/dlprg.cpp:668-820 | the loop and the last packet compute the load function, errors included |
| `DlPrgClient.CDLPrg.SendGoCmd` | src/dlprg.cpp:571-636 | one exchange of the go command of the address type |
| `Usb.WriteExact` | src/usb_windows.cpp:229-278 | however endpoint calls cut up a write, success means exactly the data went out once, in order; failure means a prefix did |
| `Usb.WriteRestShort` | src/usb_windows.cpp:229-278 | a write that fails put strictly less than its data on the wire |
| `Usb.ReadExact` | src/usb_windows.cpp:329-371 | a read takes a prefix of what is on the wire, and succeeds exactly if it is as long as asked |
| `Usb.ReadCompletes` | src/usb_windows.cpp:337-361 | short transfers and time-outs cannot stop a read while octets and useful calls remain |
| `Usb.ReadOnceExact` | src/usb_windows.cpp:337-353 | the form of usb_read that returns after one transfer takes a prefix of what is on the wire and returns its length |
| `Usb.EndsWhenFull` | src/usb_windows.cpp:259-270 | a zero-length packet goes out only behind a whole write that fills its last packet |
| `Usb.WriteEnds` | src/usb_windows.cpp:259-270 | and there it does go out, if the endpoint takes it |
| `Usb.FailureEnds` | src/usb_windows.cpp:246-253 | a failed endpoint call ends a write or a read, and an invalid handle closes the pipes |
| `Usb.ClosedForGood` | src/usb_windows.cpp:229-371 | through closed pipes nothing moves |
| `Usb.TimeoutsRetried` | src/usb_windows.cpp:337-361 | reads wait through any number of time-outs; a write fails at the first |
| `UsbHandle.UsbHandle.Write` | src/usb_windows.cpp:229-278 | the write loop computes the write function, kicking the handle on an invalid one |
| `UsbHandle.UsbHandle.Read` | src/usb_windows.cpp:329-371 | the read loop computes the read function, and what it read stays in the buffer even when it fails |
| `UsbHandle.UsbHandle.ReadOnce` | src/usb_windows.cpp:329-371 | the loop computes that function, retrying after time-outs |
| `UsbPacket.HeaderMagic` | src/adbhost.cpp:210 | the last word of every header is its first with every bit flipped, octet by octet: the command xor 0xffffffff |
| `UsbPacket.HeaderOkIff` | src/transport_usb.cpp:29-42 | a header passes if and only if that holds of its own octets and its length is at most 4096 |
| `UsbPacket.HeaderLayout` | inc/adb.h:29-36 | where command, arguments, length and checksum stand on the wire, low byte first |
| `UsbPacket.BadHeaderRefused` | src/transport_usb.cpp:64-76 | a wrong header is refused with nothing read behind it |
| `UsbPacket.HeaderFields` | inc/adb.h:29-36 | the six words of the header are command, arguments, length, checksum and magic, and pass check_header |
| `UsbPacket.AcceptsEncoding` | src/transport_usb.cpp:29-91 | a packet as send_packet builds it is accepted exactly if its transfers succeed, and is delivered unchanged |
| `UsbPacket.AcceptedWasEncoded` | src/transport_usb.cpp:64-91 | nothing else is accepted: what passes both checks is the encoding of what is delivered |
| `UsbPacket.OneOctetDamageRefused` | src/transport_usb.cpp:44-61 | a packet with one payload octet changed is refused |
| `UsbPacket.DamagedLeftInMemory` | src/transport_usb.cpp:64-91 | a refused packet is left in memory, header and damaged payload |
| `UsbPacket.SwapUnnoticed` | src/transport_usb.cpp:44-61 | the checksum is blind to order: two swapped octets are delivered |
| `UsbPacket.ReadAllExact` | src/transport_usb.cpp:64-110 | reading what was encoded delivers the packets in order, as many as arrive |
| `UsbPacket.SendAllIff` | src/adbhost.cpp:188-229 | with every verdict dropped, exactly the packets are on the wire if and only if every write succeeded; otherwise less is |
| `UsbPacket.SureIffNothing` | src/adbhost.cpp:188-229 | a sender that drops the verdicts has its packets on the wire over every pipe if and only if it has none to send; an unplugged pipe takes nothing |
| `UsbPacket.PacketsArrive` | src/transport_usb.cpp:64-110 | packets written through one plan of short transfers and read through another arrive as they were sent |
| `UsbPacket.GenerousPipesDeliver` | src/transport_usb.cpp:64-110 | over pipes whose transfers complete, any packets are written, accepted and delivered unchanged |
| `TransportUsb.Apacket.constructor` | src/adbhost.cpp:1582-1588 | a new packet has a header of zeros |
| `TransportUsb.Apacket.Checksum` | src/transport_usb.cpp:44-55 | the countdown loop sums the payload in 32 bits |
| `TransportUsb.Apacket.Finish` | src/adbhost.cpp:204-220 | send_packet makes the header the encoding of the packet's command, arguments and payload, with the flipped command as magic, and changes none of them |
| `TransportUsb.Apacket.CheckHeader` | src/transport_usb.cpp:29-42 | accepted exactly with the complement as magic and at most 4096 octets |
| `TransportUsb.Apacket.CheckData` | src/transport_usb.cpp:44-61 | accepted exactly if the sum is right |
| `TransportUsb.Apacket.RemoteRead` | src/transport_usb.cpp:64-91 | computes the packet reader, memory contents after failures included |
| `TransportUsb.Apacket.RemoteWrite` | src/transport_usb.cpp:93-110 | header first, then the payload if there is one |
| `AdbStream.ReadxRefines` | src/adbhost.cpp:1284-1333 | one successful read: bytes returned and kept are the bytes kept before and the payloads consumed; one OKAY per WRTE |
| `AdbStream.ReadxAnswers` | src/adbhost.cpp:1284-1333 | successful or not, a read answers each WRTE it consumes once, and nothing else |
| `AdbStream.ReadxDecided` | src/adbhost.cpp:1284-1333 | the outcome of a read into an empty buffer, the bytes returned and kept and the packets consumed, told by the first packet that is no OKAY |
| `AdbStream.StreamRefinement` | src/adbhost.cpp:1284-1333 | any run of successful reads of any lengths returns the written stream in order, and answers each WRTE packet once |
| `AdbStream.FailureIgnored` | src/adbhost.cpp:1292 | readx answers the same whether or not read_packet failed |
| `AdbOverUsb.DamageDelivered` | src/adbhost.cpp:1284-1333 | a WRTE packet with one payload octet changed on the wire fails its checksum, and readx returns its damaged payload as data |
| `AdbStream.CrossingLoses` | src/adbhost.cpp:1317-1320 | a read past the end of a kept packet fails, and the kept bytes are gone |
| `AdbStream.ShellCollects` | src/adbhost.cpp:353-413 | the response is every WRTE payload before the first CLSE or failed read; each WRTE and the CLSE are answered once |
| `AdbStream.ShellInResponds` | src/adbhost.cpp:353-413 | whenever handle_shell_response returns a response, it is that one, however the buffer grew |
| `AdbStream.GrowsIff` | src/adbhost.cpp:377-391 | there is a response if and only if it fits the first block and 4096 octets more for every time the block can be extended in place; if not, a refusing allocator ends it and a moving one makes it write to a freed block |
| `AdbStream.ShellInStops` | src/adbhost.cpp:377-391 | without a response, the packet that did not fit is the last one consumed and the only WRTE not answered |
| `AdbStream.RespondsIffFits` | src/adbhost.cpp:377-391 | a response is returned whatever the allocator does, and a freed block is never written, if and only if the response has at most 4096 octets |
| `AdbStream.CutShortUnnoticed` | src/adbhost.cpp:368-372 | a response cut short by a failed read is returned like a complete one |
| `AdbSync.ChunksTile` | src/adbhost.cpp:1255-1260 | the pieces of a buffer join to the buffer, and none is empty |
| `AdbSync.DataPayload` | src/adbhost.cpp:1262-1264 | a DATA packet of at most 4088 octets of content fits MAX_PAYLOAD |
| `AdbSync.DataOnWire` | src/adbhost.cpp:1249-1272 | a DATA message is the letters DATA, its length low byte first, and its content |
| `AdbSync.RecvRebuilds` | src/adbhost.cpp:888-916 | however messages are packed into packets, as long as none straddles two, the receiver rebuilds the content and answers each packet once |
| `AdbSync.RecvEnds` | src/adbhost.cpp:888-916 | after any chunks, the first message that is no sound DATA ends the transfer with exactly the chunks before it: well after DONE, otherwise with the error for it, and what is behind it is left alone |
| `AdbSync.NegativeLengthLost` | src/adbhost.cpp:895-907 | a length of 2 GB or more passes the signed check, and the read that follows is refused |
| `AdbSync.OversizedOverruns` | src/adbhost.cpp:1317-1321 | a WRTE that claims more than a packet holds ends the model at the copy past the packet |
| `AdbSync.RecvAnswers` | src/adbhost.cpp:888-916 | whatever it returns, the loop has answered each WRTE it consumed once |
| `AdbSync.RecvIffCut` | src/adbhost.cpp:888-916 | for any packets, empty ones among them, that hold the bytes of the messages of a file, the receiver completes, with exactly the content, if and only if no message straddles two packets or meets an empty one; otherwise it fails as lost |
| `AdbSync.ReadsIffCut` | src/adbhost.cpp:1284-1333 | reads that ask for the stream piece by piece, some perhaps for no bytes, all succeed, with exactly the stream, if and only if each piece is the front of what its packet still holds |
| `AdbSync.SentIsCut` | src/adbhost.cpp:1249-1272 | the packets of write_data_buffer and the DONE are packed that way |
| `AdbSync.FileRoundTrip` | src/adbhost.cpp:888-916 | for any content, its DATA packets and DONE with any OKAYs between are received as exactly the content |
| `AdbOverUsb.FileOverUsb` | src/adbhost.cpp:852-919 | the same end to end: packets written to one USB pipe and read from another, in transfers of any size |
| `AdbHost.AdbHost.SendPacket` | src/adbhost.cpp:188-229 | exactly the packet described by the header fields is written to the pipe, whatever became of the packets before it, and the verdict is dropped |
| `AdbHost.AdbHost.ReportsSuccessAnyway` | src/adbhost.cpp:1249-1272 | the success write_data_buffer always reports means that exactly the content's packets are on the wire, over every pipe, if and only if the content is empty |
| `AdbHost.AdbHost.FileReportsSuccessAnyway` | src/adbhost.cpp:1212-1247 | the same of write_data_file, if and only if the first read brings nothing |
| `AdbHost.AdbHost.NotifyReady` | src/adbhost.cpp:318-327 | one packet is sent: A_OKAY, the host's id, the peer's id, no payload |
| `AdbHost.DeviceCounts` | src/adbhost.cpp:318-327 | a device that takes packets for its own stream by both ids counts exactly one OKAY for every WRTE the host consumed, on this stream and on no other |
| `AdbHost.AdbHost.Writex` | src/adbhost.cpp:1335-1347 | one packet A_WRTE with the host's id, the peer's id and exactly the bytes, or a refusal exactly above MAX_PAYLOAD |
| `AdbHost.AdbHost.Readx` | src/adbhost.cpp:1284-1333 | readx over packet_buffer computes the stream function; the bytes land at the pointer and nowhere else, and each WRTE consumed is answered by one OKAY with both ids |
| `AdbHost.AdbHost.WriteDataBuffer` | src/adbhost.cpp:1249-1272 | the DATA packets of the pieces of the buffer are written to the pipe in order, each whatever became of those before, and it reports success |
| `AdbHost.AdbHost.WriteDataFile` | src/adbhost.cpp:1212-1247 | the same of packets that carry what was read up to the first empty read, which also stands for a read error |
| `AdbHost.AdbHost.SyncRecv` | src/adbhost.cpp:888-916 | the loop computes the receiver function: result, file contents and the stream left over; each WRTE consumed is answered by one OKAY with both ids |
| `AdbHost.AdbHost.HandleShell` | src/adbhost.cpp:353-413 | length and capacity always make up the allocation; outcome, response and packets sent are those of the shell function for every allocator, and every packet sent is an OKAY with both ids |
| `AdbHost.AdbHost.MakeRoom` | src/adbhost.cpp:377-391 | a block extended in place keeps the response and is followed by 4096 zeros |
| `HandleList.NeverTwice` | src/usb_windows.cpp:114-155 | whatever is registered, kicked and closed, no two listed devices have the same name, regardless of case |
| `HandleList.RegisteredUnless` | src/usb_windows.cpp:84-99 | a device is taken into the list, last, unless it has a name and one is listed whose name differs from it in case at most |
| `HandleList.ReopenAfterKick` | src/usb_windows.cpp:391-402 | a kicked device is still listed, and can be registered again all the same |
| `HandleList.ReopenAfterClose` | src/usb_windows.cpp:404-426 | a closed device can be registered again at once and then stands last |
| `HandleList.UsbWindows.KnownDevice` | src/usb_windows.cpp:84-99 | true exactly if a listed handle still has that name, regardless of case |
| `HandleList.UsbWindows.RegisterNewDevice` | src/usb_windows.cpp:114-155 | the handle is added at the tail exactly if its name is not listed, as that of a listed handle is; the ring stays well linked both ways |
| `HandleList.UsbWindows.UsbKick` | src/usb_windows.cpp:391-402 | the name is forgotten; a listed handle stays listed, any other leaves the list alone |
| `HandleList.UsbWindows.UsbClose` | src/usb_windows.cpp:404-426 | a listed handle is unlinked and everybody else keeps order and links; one that links to itself changes nothing |
| `HandleList.UsbWindows.Enumerate` | src/usb_windows.cpp:548-560 | walking the list visits every listed handle once, in order of registration |
| `Fastboot.DownloadCmdReadable` | mdmfastboot/fastbootflash.cpp:529 | behind the word download and a colon, the eight hexadecimal digits are the size, for every 32-bit size |
| `Fastboot.StopsAtFirstFailure` | mdmfastboot/fastbootflash.cpp:333-384 | the lines sent are those of the queue in order up to the first action whose callback fails; all before it succeeded and nothing follows it |
| `Fastboot.SendSucceedsIff` | mdmfastboot/fastbootflash.cpp:407-482 | a command without data succeeds, with the text of the OKAY, if and only if it has 1 to 64 characters, is written, and the first reply that is no INFO is an OKAY; otherwise the result is -1 |
| `Fastboot.GoesWellIff` | mdmfastboot/fastbootflash.cpp:67-176 | each kind of action succeeds if and only if its callback does nothing, or its replies and writes are right and, for a required value, the text is or is not listed |
| `Fastboot.RunsWhileWell` | mdmfastboot/fastbootflash.cpp:333-384 | every command executed before the last met an OKAY unless its callback does nothing, every required query an OKAY with a listed text, every rejected one with one that is not; the run breaks off at the first action for which that fails |
| `Fastboot.OneReportEach` | mdmfastboot/fastbootflash.cpp:360-371 | there is one progress report for every command executed, the failing one included, and none at a total of zero |
| `Fastboot.ImageSizeTrue` | mdmfastboot/fastbootflash.cpp:322-331 | the total is the sum of all sizes in 32 bits |
| `Fastboot.DownloadSucceedsIff` | mdmfastboot/fastbootflash.cpp:463-512 | a download succeeds if and only if the device grants a size or answers OKAY, the writes succeed and an OKAY follows; exactly the granted part of the data is sent |
| `Fastboot.FlashOnlyAfterDownload` | mdmfastboot/fastbootflash.cpp:260-271 | a flash command is sent only after the download queued just before it was acknowledged |
| `Fastboot.InfoIrrelevant` | mdmfastboot/fastbootflash.cpp:426-429 | INFO replies, any number anywhere, change neither results nor writes nor progress of a run |
| `Fastboot.ProgressWithinBounds` | mdmfastboot/fastbootflash.cpp:340-371 | progress never goes back and never exceeds 100 as long as padding and sizes fit in 32 bits |
| `Fastboot.ReportsBelowIff` | mdmfastboot/fastbootflash.cpp:340-371 | for any sizes, all reports of a run, broken off or not, are numbers below a bound if and only if the 32-bit count at every command executed is below that many hundredths of the 32-bit total: 101 for reports within 100, 2^31 for reports that fit int |
| `Fastboot.EndsAtHundredIff` | mdmfastboot/fastbootflash.cpp:322-331 | a whole run ends at 100 if and only if padding and downloads make up the total |
| `Fastboot.ProgressCanOverflow` | mdmfastboot/fastbootflash.cpp:340-371 | for every padding below 2 GB a queue of two 2 GB downloads reports too much in between: 300 for a padding of 1 GB, and for a padding of one a double that no int holds |
| `FastbootQueue.Device.CheckResponse` | mdmfastboot/fastbootflash.cpp:407-461 | the loop over replies computes the reply function |
| `FastbootQueue.Device.CommandSend` | mdmfastboot/fastbootflash.cpp:463-482 | a command without data: refused when too long, failed when not written, otherwise the device's answer; 0 exactly if it met an OKAY, else -1 |
| `FastbootQueue.Device.CommandSendData` | mdmfastboot/fastbootflash.cpp:463-512 | a command with data, in its three phases |
| `FastbootQueue.FastbootEngine.QueueAction` | mdmfastboot/fastbootflash.cpp:229-251 | if the command fits its field, the new action stands last, all before it are untouched, and head and tail point where they should; if not, the outcome is undefined and shown as null |
| `FastbootQueue.FastbootEngine.QueueErase` | mdmfastboot/fastbootflash.cpp:253-258 | appends the erase command, exactly if it fits |
| `FastbootQueue.FastbootEngine.QueueFlash` | mdmfastboot/fastbootflash.cpp:260-271 | appends the download and, right behind it, the flash of the same partition, exactly if that fits |
| `FastbootQueue.FastbootEngine.QueueRequire` | mdmfastboot/fastbootflash.cpp:272-281 | appends a query whose size is its number of values, exactly if it fits |
| `FastbootQueue.FastbootEngine.QueueDisplay` | mdmfastboot/fastbootflash.cpp:285-292 | appends a query that only fails if the device does, exactly if it fits |
| `FastbootQueue.FastbootEngine.QueueReboot` | mdmfastboot/fastbootflash.cpp:295-300 | appends a reboot, which always counts as done |
| `FastbootQueue.FastbootEngine.QueueCommand` | mdmfastboot/fastbootflash.cpp:302-306 | appends what the command prints when used as a format, exactly if that is defined and fits |
| `Fastboot.FormattedIff` | mdmfastboot/fastbootflash.cpp:229-237 | a command used as a format is queued unchanged if and only if it holds no percent sign |
| `Fastboot.FormattedExactly` | mdmfastboot/fastbootflash.cpp:229-237 | a format prints a text if and only if it is the text with its percent signs doubled |
| `FastbootQueue.FastbootEngine.QueueDownload` | mdmfastboot/fastbootflash.cpp:308-314 | appends a download of the data |
| `FastbootQueue.FastbootEngine.QueueNotice` | mdmfastboot/fastbootflash.cpp:316-320 | appends an action that sends nothing |
| `FastbootQueue.FastbootEngine.RemoveAction` | mdmfastboot/fastbootflash.cpp:201-227 | every action is detached and the queue is empty |
| `FastbootQueue.FastbootEngine.ImageSize` | mdmfastboot/fastbootflash.cpp:322-331 | walks the list and finds the 32-bit sum of all sizes |
| `FastbootQueue.FastbootEngine.Match` | mdmfastboot/fastbootflash.cpp:43-65 | true exactly if some value equals the text, or ends in a star and starts it |
| `FastbootQueue.FastbootEngine.CallBack` | mdmfastboot/fastbootflash.cpp:67-176 | what each callback returns |
| `FastbootQueue.FastbootEngine.ExecuteQueue` | mdmfastboot/fastbootflash.cpp:333-397 | walking the list computes the run function: where it stops, what was sent, what progress was reported |

## Left out

- Packet.CPacket.SendHdlc: requires fewer than 65536 bytes; for longer input the loop of the code does not end (Packet.HdlcLoopEndsIff), so there is no outcome to state.
- Packet.CPacket.RcvDiag: not for input of exactly 4096 bytes before its closing flag, which the code stores unchecked behind the buffer; the code does not look at the CRC, and neither does the model.
- Packet.CPacket.Receive: only for responses of the HDLC types; the DIAG type is RcvDiag, and the others are not part of this model.
- Packet.SerialPort.Send: a write either goes out whole or fails; one that fails on an open port is the link closing for that moment.
- Telnet.TelnetClient.SendNegotiation: a socket write that fails or is short, which the code logs and forgets.
- TelnetWire.OctetsRefineMessages: clients that send nothing but negotiations; what payloads between them do is Telrcv.DataRoundTrip and Telrcv.MessageBehindData.
- Telnet.TelnetClient.HandleSuboption: does not format the reply to a sub-option.
- Telnet.TelnetClient.Receive: the compiled startskipping throws the data range away; the model records the ranges it delimits, which is what the code around it maintains.
- HostDl.DownloadSafe: assumes a link with nothing in it at the start; an acknowledgement left over from an earlier image at the same address would be taken.
- HostDl.WriteSafe: the device answers a write it understands with its address; loss, delay, repetition and reordering are of whole frames, damage inside a frame is the subject of HdlcTheory.DamageDetected.
- HostDlClient.CDLData.SendWritePacket: without the progress report and its arithmetic.
- DlPrg.CompleteIffOneChunk: and the other results about the load assume a device that never sends a NAK with reason zero (DlPrg.AcknowledgedExactly).
- DlPrg.LoadSafe: one way, and its condition is about the link during the run; DlPrg.CompleteIffOneChunk is what can be said without one.
- DlPrgClient.CDLPrg.SendWrite32Cmd: negative lengths are not modelled; the code would copy a negative number of bytes, which has no defined result.
- Usb.WriteExact: scripts are finite, so a loop that makes no progress for ever is not represented; the same holds for every other loop over a port or socket.
- AdbSync.RecvIffCut: empty packets behind the last byte of the messages, which the loop leaves unread; the same holds of AdbSync.ReadsIffCut and a last read of no bytes.
- AdbHost.AdbHost.Readx: where the code copies past the end of a packet or a buffer the model stops with an outcome of its own, Undefined; sizes are those of a 32-bit build.
- AdbHost.AdbHost.HandleShell: the first allocation succeeds and the length stays below 2 GB; a write to a freed block ends the model with an outcome of its own, FreedBlock.
- AdbHost.AdbHost.WriteDataFile: a negative count from adb_read, which fread cannot return, and with it the retry after EINTR.
- AdbHost.AdbHost.SyncRecv: the request that precedes the loop; the file takes every write; text-mode translation by the C library, the error message of the device and directories are not part of this model.
- HandleList.UsbWindows.RegisterNewDevice: not for a listed handle that has lost its name, which the opening code never registers; names fold the letters A to Z.
- FastbootQueue.FastbootEngine.QueueAction: what the code does with a command that does not fit its field of 64 characters has no defined result; the model returns null, and its callers false.
- FastbootQueue.FastbootEngine.RemoveAction: the release of each message is not modelled, also of the one the caller of fb_queue_command owns.
- Fastboot.Execute: replies are values, not text, so the reading of hexadecimal sizes is not modelled; messages and timing have no effect.
- Allocation other than that of the shell response, locks, threads, real time, logging, printing and progress of the serial download.
- Opening, closing, hello, security, partition table and reset commands of `src/hostdl.cpp`, and the reset of `src/dlprg.cpp`: fixed exchanges over the same framing.
- AT, SCSI and Sahara packets, the Sahara and diagnostic command sets, INI, XML and QCN files, the HTTP server, and the dialogs and schedulers above all this.
