# Pico weather station: verified models

This project models the parts of the firmware whose correctness is hardest to see, and proves what they promise.
`dafny verify dfyconfig.toml` checks everything. Each core follows one source file; where the source changes state
step by step, the model is a class or a method over an array, specified by functions on plain values about which
the main results are then proved.

- **RTT ring buffer** (`Ring`, `RttBuffer`, `Overwrite`, `RttProtocol`, `Terminal`). One ring abstraction serves all
  writers and readers. `RttProtocol` is the lock-free protocol as a state machine in which every byte copied and every
  offset published is a step of its own; in every interleaving it is a FIFO queue. The writers of `RttBuffer` are each
  tied to the same bounded queue. `Overwrite` says for which lengths an overwriting write keeps the newest bytes, and
  `Terminal` that a host can take the sixteen terminals apart again.
- **SystemView recorder** (`VarInt`, `Packet`, `PacketBuffer`, `Recording`, `SysView`, `HostReader`). A host, which the
  source does not have, is the partner of the recorder: it decodes packets and reads reports, prints, registrations and
  answers back from them, knowing only the protocol's numbers. `Recording` is the state machine with its loss accounting and
  time stamps, for every run; `SysView` is the recorder itself, which frames packets in its static buffer, writes them
  to the ring, answers the host's commands in the middle of it all, and is proved to do just what `Recording` says.
- **1-Wire ROM search** (`OneWire`) on a bus whose devices all pull the same line.
- **DHCP server** (`DhcpOptions`, `DhcpServer`): lease safety over all runs, and the option field (RFC 2132, section 2).
- **Line drawing** (`LineDrawing`) into a frame buffer with two pixels to the byte.
- **Number printing** (`NumberPrinter`), with a reader that the source does not have as its partner (`NumberReader`), and
  what happens when too many digits are asked for (`PrinterLimits`).
- **Checksums** (`Xor8`, `Crc8`, and `CrcDivision`, where they are remainders of a polynomial), **EEPROM** (`Eeprom`) and
  the **temperature formula** (`Bme280`).

What comes from outside is left open: the host's reads and commands, the clock, bus failures and RTT write results are
nondeterministic or parameters, so the results hold whatever they do. The SystemView configuration is the build's
default: long ids, no long data, strings up to 128 characters, 16 arguments, 32-bit time stamps, a static packet buffer.

Where the code does not do what one would expect, the model follows the code and says exactly when it does:

- An overwriting write keeps the newest bytes for exactly the lengths that wrap at most once
  (`Overwrite.KeepsNewestExactly`); later rounds take the buffer to be one byte shorter than it is.
- Terminals can be told apart exactly when no text holds the byte 0xFF (`Terminal.DemultiplexesExactly`).
- Event id 127 takes two bytes where one would do (`VarInt.IdIsVarInt`).
- An event that is masked while recording is dropping still counts as dropped (`Recording.LossIsAccountedFor`).
- A lease tests as expired only in every other stretch of 2^31 ms after its end (`DhcpServer.ExpiredExactly`); this
  delays reuse but never endangers safety.
- A colour above 15 leaves other pixels alone exactly in even columns, or if its upper half adds no bits to the left
  neighbour (`LineDrawing.PaintsOnePixel`).
- Minimum digit counts above 10 (base 10) or 8 (base 16) are not honoured, and below that always are
  (`NumberPrinter.PrintsAllDigitsExactly`). Above 32 or 8 the printer divides by zero
  (`PrinterLimits.DividesByZeroExactly`), and for exactly seventeen decimal digits it can look for a digit outside its
  table (`PrinterLimits.FindsAllDigitsExactly`).
- EEPROM data longer than the chip overwrite themselves (`Eeprom.ReadsBackExactly`).
- The temperature formula stays within 32 bits for all other coefficients exactly when the reading is within 16384 coarse
  steps of T1 (`Bme280.OverflowsExactly`).
- `OneWire_SearchROM` has no return statement; `OneWire.SearchROM` returns the counter at the end of the loop. Of `maxDevices`
  only 0 has an effect: the search stays inside the caller's array exactly under the condition of
  `OneWire.StaysInArrayExactly`.
- The type of a DHCP message and the address it asks for are taken from behind its option field when their options begin too
  near to its end, exactly as `DhcpServer.KindIsInFieldExactly` and `DhcpServer.RequestedIsInFieldExactly` say;
  `DhcpServer.TypeFromBehind` and `DhcpServer.AddressFromBehind` are such messages.
- The count of bytes in the ring is right exactly when that has not wrapped, or by a coincidence (`Ring.CountedExactly`).
- A registered data source fits the packet buffer exactly when its texts are short enough
  (`PacketBuffer.RegistrationFitsExactly`).

## Model

| member | source | states |
|---|---|---|
| Ring.StoreAppends | lib/SEGGER/SEGGER_RTT.c:429-482 | storing bytes that fit, whether or not they go round the end of the buffer, appends exactly them to the unread bytes |
| Ring.StoredInChunks | lib/SEGGER/SEGGER_RTT.c:435-481 | one copy up to the end of the buffer, or two copies with the tail going to slot 0, fill the same slots as byte-by-byte cyclic storing |
| Ring.StoredElsewhere | lib/SEGGER/SEGGER_RTT.c:429-482 | slots outside the written stretch keep their bytes |
| Ring.ReadDrops | lib/SEGGER/SEGGER_RTT.c:634-636 | advancing the read offset removes exactly the oldest bytes from the queue |
| Ring.ReadInChunks | lib/SEGGER/SEGGER_RTT.c:578-630 | the two chunks a reader copies are the front of the queue, also when the unsigned WrOff - RdOff wraps; the offset stops in range, at the next unread byte |
| Ring.CountedExactly | lib/SEGGER/SEGGER_RTT.c:2084-2088 | the count of unread bytes is right if and only if the ring has not wrapped, or the two offsets are exactly 2^31 apart |
| Ring.WrongCount | lib/SEGGER/SEGGER_RTT.c:2087 | a wrapped ring of four slots that holds three bytes is said to hold five |
| RttBuffer.Accepted | lib/SEGGER/SEGGER_RTT.c:1104-1137 | what a non-blocking write appends: all of the data if they fit; otherwise nothing in skip mode and as much as fits in trim mode |
| RttBuffer.RttBuffer.GetAvailWriteSpace | lib/SEGGER/SEGGER_RTT.c:519-535 | the space is the capacity SizeOfBuffer - 1 less the unread bytes |
| RttBuffer.RttBuffer.GetBytesInBuffer | lib/SEGGER/SEGGER_RTT.c:2072-2090 | returns the number of unread bytes exactly under the condition above |
| RttBuffer.RttBuffer.WriteNoCheck | lib/SEGGER/SEGGER_RTT.c:429-482 | data that fit are appended to the queue; every slot of the new buffer and the new offset are given |
| RttBuffer.RttBuffer.ReadUpBuffer | lib/SEGGER/SEGGER_RTT.c:566-639 | the reader takes as many of the oldest bytes as it has room for and there are, copies them in order, touches nothing else of its buffer, and leaves the rest of the queue (ReadNoLock, 658-728, is the same code) |
| RttBuffer.RttBuffer.WriteBlocking | lib/SEGGER/SEGGER_RTT.c:367-409 | whatever the host does between rounds, exactly a prefix of the data is added to the stream, and all of it on return; data that fit take at most two rounds even if the host never reads; a host that takes at least one byte per visit makes the call return within as many rounds as there are bytes |
| RttBuffer.RttBuffer.Turn | lib/SEGGER/SEGGER_RTT.c:379-406 | one round adds a prefix of what is left, completes what fits at once or reaches slot 0, and makes progress whenever the host has taken something |
| RttBuffer.RttBuffer.Round | lib/SEGGER/SEGGER_RTT.c:379-406 | a round writes as much as fits in the free space before the end of the buffer, and publishes exactly that |
| RttBuffer.RttBuffer.WriteNoLock | lib/SEGGER/SEGGER_RTT.c:1093-1142 | skip mode stores all or nothing, trim mode the longest fitting prefix, blocking mode everything on return; other modes nothing |
| RttBuffer.RttBuffer.WriteSkipNoLock | lib/SEGGER/SEGGER_RTT.c:927-987 | leaves the same buffer, offset and queue as a skip-mode WriteNoLock, through all five cases of its comment |
| RttBuffer.RttBuffer.WriteWithOverwriteNoLock | lib/SEGGER/SEGGER_RTT.c:826-897 | the ring then holds the last SizeOfBuffer - 1 bytes of old content followed by new, for every length that wraps at most once; buffer and offsets are given for all lengths |
| RttBuffer.RttBuffer.PushReadOffset | lib/SEGGER/SEGGER_RTT.c:839-851 | the read offset moves ahead by what does not fit, modulo the size |
| RttBuffer.RttBuffer.OverwriteRounds | lib/SEGGER/SEGGER_RTT.c:855-896 | the rounds fill the buffer as the recursive description says, however often they wrap |
| Overwrite.OverwrittenIsStored | lib/SEGGER/SEGGER_RTT.c:855-896 | a write shorter than the buffer fills the same slots as a plain cyclic store |
| Overwrite.ShortKeepsNewest | lib/SEGGER/SEGGER_RTT.c:826-897 | with NumBytes < SizeOfBuffer the ring keeps the newest SizeOfBuffer - 1 bytes |
| Overwrite.LongKeepsNewest | lib/SEGGER/SEGGER_RTT.c:826-897 | so it does for longer data that still wrap only once |
| Overwrite.OverwrittenAt | lib/SEGGER/SEGGER_RTT.c:855-896 | for every length that reaches the end of the buffer, slot by slot: the last slot is written once, the others hold the last byte that came round to them, and the write offset is where the last round ends |
| Overwrite.TooLongFails | lib/SEGGER/SEGGER_RTT.c:894 | for every longer length there are data, built from a single marked byte, of which a wrong byte is kept |
| Overwrite.KeepsNewestExactly | lib/SEGGER/SEGGER_RTT.c:826-897 | the newest bytes are kept for all data of a length if and only if WrOff + NumBytes <= 2 * SizeOfBuffer - 2 |
| RttProtocol.Plan | lib/SEGGER/SEGGER_RTT.c:379-386 | from the space that the writer sees: in skip mode all or nothing, in trim mode as much as fits, in blocking mode something exactly if there is something to write and space for it, stopping only at the end of the data, the space or the buffer |
| RttProtocol.TakeIsBounded | lib/SEGGER/SEGGER_RTT.c:578-613 | the reader, with its unsigned subtraction, never takes more than there is or than it asked for |
| RttProtocol.CopyInKeepsQueue | lib/SEGGER/SEGGER_RTT.c:387-401 | no unread byte is overwritten: copying a byte in does not change the queue |
| RttProtocol.PublishAppends | lib/SEGGER/SEGGER_RTT.c:402-406 | moving WrOff appends exactly the copied chunk to the queue |
| RttProtocol.StepKeepsInv | lib/SEGGER/SEGGER_RTT.c:367-639 | every step of either side keeps the invariant that ties offsets, copied bytes, published bytes and received bytes together |
| RttProtocol.RefinesFifo | lib/SEGGER/SEGGER_RTT.c:367-639 | every step is a step of an unbounded FIFO queue or leaves it alone |
| RttProtocol.Run | lib/SEGGER/SEGGER_RTT.c:367-639 | the invariant holds at the end of every run |
| RttProtocol.EveryInterleaving | lib/SEGGER/SEGGER_RTT.c:367-639 | in every interleaving, received bytes followed by the ring are exactly the published bytes, offsets stay below SizeOfBuffer, at most SizeOfBuffer - 1 bytes are held, and a half-finished reader holds the bytes that come next |
| RttProtocol.CallPublishes | lib/SEGGER/SEGGER_RTT.c:1093-1142 | a call that ends has published all of its data in blocking mode; in skip mode all of them if they fitted into the space that it saw, else nothing; in trim mode as many as fitted |
| RttProtocol.CallFulfils | lib/SEGGER/SEGGER_RTT.c:1093-1142 | over every interleaving from the call to its end, exactly the data given to the call are published in blocking mode; in skip mode all of them if they fit the room at the round's beginning, else nothing; in trim mode as much from their front as fits |
| RttProtocol.RoundCompletes | lib/SEGGER/SEGGER_RTT.c:378-407 | a round that is not disturbed comes to its end and publishes exactly what was planned from the room that it saw |
| RttProtocol.ReadTakes | lib/SEGGER/SEGGER_RTT.c:566-639 | over every interleaving from a read to its end, the host receives exactly the bytes that were at the front of the queue when it began, as many as it asked for or as there were |
| RttProtocol.ReadCompletes | lib/SEGGER/SEGGER_RTT.c:566-639 | a read that is not disturbed comes to its end |
| RttProtocol.PublishedIsPrefix | lib/SEGGER/SEGGER_RTT.c:367-409 | while a call runs, it has published a prefix of its data |
| RttProtocol.BlockingCallEnds | lib/SEGGER/SEGGER_RTT.c:378-407 | however the steps interleave, a blocking call that is still going on has had at most as many rounds with a ring that was not full as it had bytes left, or one round if it was given no bytes at all |
| RttProtocol.RoomStays | lib/SEGGER/SEGGER_RTT.c:367-639 | only publishing takes space away |
| RttProtocol.TakingMakesRoom | lib/SEGGER/SEGGER_RTT.c:634-636 | once a reader has taken something, the writer sees space when it comes to read the read offset, unless it has published in between |
| RttProtocol.FullRingIsTaken | lib/SEGGER/SEGGER_RTT.c:578-613 | a reader with room for anything that begins while the ring is full is going to take something |
| RttProtocol.TakingEndsBlockingCall | lib/SEGGER/SEGGER_RTT.c:367-639 | in every interleaving, a blocking call that is still going on has begun at most as many rounds after the reader had taken something since the round before as it had bytes left, or one if it had none: a reader that keeps taking lets every blocking call end |
| Terminal.ScanOp | lib/SEGGER/SEGGER_RTT.c:1963-2036 | scanning what one call stored shows its text on its terminal and leaves the host on the active one |
| Terminal.DemultiplexesAll | lib/SEGGER/SEGGER_RTT.c:1914-2036 | for any run of terminal switches, terminal outputs and plain writes without 0xFF, each byte is attributed to the intended terminal and the host ends on the active terminal |
| Terminal.NeverShowsEscape | lib/SEGGER/SEGGER_RTT.c:497-503 | the byte 0xFF is never shown as text |
| Terminal.DemultiplexesExactly | lib/SEGGER/SEGGER_RTT.c:1914-2036 | demultiplexing is faithful if and only if no text holds 0xFF |
| Terminal.OutLength | lib/SEGGER/SEGGER_RTT.c:1987-2025 | skip mode takes all of the text exactly if it fits together with both switches, trim mode all of it or what fills the space exactly if both switches fit, blocking mode all of it |
| Terminal.Terminals.PostTerminalSwitch | lib/SEGGER/SEGGER_RTT.c:497-503 | posts the escape byte and the terminal letter; with two bytes free it returns even if the host never reads |
| Terminal.Terminals.SetTerminal | lib/SEGGER/SEGGER_RTT.c:1914-1944 | either the switch is stored and the terminal becomes active, or -1 is returned and nothing changes; only blocking mode can wait |
| Terminal.Terminals.TerminalOut | lib/SEGGER/SEGGER_RTT.c:1963-2036 | between two switches, stores the whole text if text and switches fit, in trim mode the shorter of the text and the space less four, in blocking mode all; returns that length, or 0 for a full ring in skip mode and -1 in all other cases of nothing; in skip and trim mode it finishes even if the host never reads |
| Terminal.Terminals.OutBetweenSwitches | lib/SEGGER/SEGGER_RTT.c:1997-1999 | three blocking writes that fit together finish without the host |
| Terminal.Terminals.WriteActive | lib/SEGGER/SEGGER_RTT.c:1093-1142 | a plain write adds the accepted part of the text to the active terminal: the whole text in blocking mode |
| Terminal.Terminals.ShownAsIntended | lib/SEGGER/SEGGER_RTT.c:1914-2036 | after any calls on the real ring, the host shows every byte where it was meant to go |
| VarInt.EncodedLength | lib/SEGGER/SEGGER_SYSVIEW.c:371-382 | a value takes n bytes exactly when it has at most 7n bits, for n up to five |
| VarInt.DecodesEncoded | lib/SEGGER/SEGGER_SYSVIEW.c:371-382 | decoding gives back the value and its length, whatever follows |
| VarInt.DecodeU32Extends | lib/SEGGER/SEGGER_SYSVIEW.c:371-382 | more input does not change what was decoded |
| VarInt.IdIsVarInt | lib/SEGGER/SEGGER_SYSVIEW.c:843-868 | the id written backwards byte by byte is the forward encoding of the id, except that 127 takes two bytes |
| VarInt.DecodesId | lib/SEGGER/SEGGER_SYSVIEW.c:843-868 | the decoder gets every 32-bit id back, 127 included |
| VarInt.DecodesLength | lib/SEGGER/SEGGER_SYSVIEW.c:832-837 | the decoder gets the length back from its backward encoding |
| Packet.DecodesPacket | lib/SEGGER/SEGGER_SYSVIEW.c:797-884 | the decoder gets back id, payload and delta of every packet, whatever follows it |
| Packet.DecodesAnyPrefix | lib/SEGGER/SEGGER_SYSVIEW.c:748-903 | from a stream cut off anywhere, the decoder gets all packets that are complete in it, in order, and no others |
| Packet.TruncatedIsIncomplete | lib/SEGGER/SEGGER_SYSVIEW.c:797-884 | no proper prefix of a packet decodes to anything |
| Packet.DecodesWholeStream | lib/SEGGER/SEGGER_SYSVIEW.c:748-903 | a concatenation of packets decodes to exactly these packets |
| Packet.SyncIsFiveNops | lib/SEGGER/SEGGER_SYSVIEW.c:269 | the ten zero bytes are five empty NOP packets with delta 0 |
| PacketBuffer.StrBytes | lib/SEGGER/SEGGER_SYSVIEW.c:502-540 | a string takes at most one more byte than both limits allow |
| PacketBuffer.PutU32 | lib/SEGGER/SEGGER_SYSVIEW.c:371-382 | the loop stores the encoding of the value and touches nothing else |
| PacketBuffer.PutStr | lib/SEGGER/SEGGER_SYSVIEW.c:502-540 | the loop stores the count and the text as far as the limits allow, and touches nothing else |
| PacketBuffer.PutArg | lib/SEGGER/SEGGER_SYSVIEW.c:502-540 | stores one parameter behind the others |
| PacketBuffer.PutArgs | lib/SEGGER/SEGGER_SYSVIEW.c:1510-1832 | stores all parameters of a recording call one after the other |
| PacketBuffer.PutBackwards | lib/SEGGER/SEGGER_SYSVIEW.c:843-868 | prepends the id without touching the payload |
| PacketBuffer.PutLength | lib/SEGGER/SEGGER_SYSVIEW.c:832-837 | prepends the length without touching the payload |
| PacketBuffer.PutHeader | lib/SEGGER/SEGGER_SYSVIEW.c:797-877 | the bytes from the returned place on are header and payload; the header never needs more than the seven bytes in front of the payload |
| PacketBuffer.StaysInBuffer | lib/SEGGER/SEGGER_SYSVIEW_ConfDefaults.h:472 | every packet with a payload up to 215 bytes lies inside the 227-byte buffer; header and delta use up their room exactly for ids from 2^28 with two length bytes, and for five-byte deltas |
| PacketBuffer.CountArgs | lib/SEGGER/SEGGER_SYSVIEW.c:970-996 | at most sixteen parameters are taken |
| PacketBuffer.PrintFits | lib/SEGGER/SEGGER_SYSVIEW.c:1006-1018 | a formatted print always fits, and fills the payload area to the last byte exactly for 128 characters, sixteen parameters and five-byte numbers |
| PacketBuffer.RecordCallsFit | lib/SEGGER/SEGGER_SYSVIEW.c:1490-1832 | ten numbers take at most 50 bytes, a text at most 129 and two numbers with a text at most 139, so every recording call of these kinds fits the static buffer |
| PacketBuffer.PlainRegistrationFits | lib/SEGGER/SEGGER_SYSVIEW.c:2552-2578 | a data source registered without a unit always fits |
| PacketBuffer.RegistrationFitsExactly | lib/SEGGER/SEGGER_SYSVIEW.c:2541-2559 | with a unit, header room, payload and time delta fit the 227-byte buffer for all numbers and all deltas if and only if name and unit together have at most 182 characters, each counted up to 128 |
| PacketBuffer.MatchingArgsAreReadable | lib/SEGGER/SEGGER_SYSVIEW.c:1490-1832 | parameters that have the structure of their id can be told apart again, whatever follows |
| Recording.StepKeepsInv | lib/SEGGER/SEGGER_SYSVIEW.c:748-903 | every event, start, stop and mask change keeps the invariant on state, drop count, last time stamp, loss accounting and every stored packet |
| Recording.RunKeepsInv | lib/SEGGER/SEGGER_SYSVIEW.c:748-903 | so does every run from initialisation on |
| Recording.StateMachine | lib/SEGGER/SEGGER_SYSVIEW.c:763-782 | the state is always off, on or dropping; an event moves it only between on and dropping, and does nothing in off; a start leads to on and a stop to off |
| Recording.LossIsVisible | lib/SEGGER/SEGGER_SYSVIEW.c:644-674 | unless Start or Stop intervenes, the first packet stored after a loss is an OVERFLOW packet with the current DropCount |
| Recording.OverflowMeansLoss | lib/SEGGER/SEGGER_SYSVIEW.c:776-781 | an OVERFLOW packet is stored only right after a loss |
| Recording.TimesAreExact | lib/SEGGER/SEGGER_SYSVIEW.c:881-902 | initial time plus the deltas of the stored packets, modulo 2^32, is the exact time of each, overflow packets included, whatever was dropped in between |
| Recording.StoredIsPosted | lib/SEGGER/SEGGER_SYSVIEW.c:748-903 | over every run, whatever a posted input adds to the stream as an event has its id, its payload and its time stamp, and was not masked; all else that it can add is an OVERFLOW packet; a start adds empty NOP packets only |
| Recording.PostedIsStored | lib/SEGGER/SEGGER_SYSVIEW.c:763-902 | an event that is posted while recording is not off, is not masked and finds room is stored, with an OVERFLOW packet before it exactly if recording was dropping, and exact deltas |
| Recording.ReportsArePosted | lib/SEGGER/SEGGER_SYSVIEW.c:748-903 | over every run, the packets in the stream that are neither NOP nor OVERFLOW are, in order, events that were posted, each at most once |
| Recording.DecodedReportsArePosted | lib/SEGGER/SEGGER_SYSVIEW.c:748-903 | so are those in any front part of the stream |
| Recording.LossIsAccountedFor | lib/SEGGER/SEGGER_SYSVIEW.c:661-671 | of the events posted while recording was not off and not masked, those lost are the drops, less those that were masked anyway, plus the changes from on to dropping; DropCount is the number of drops modulo 2^32 |
| Recording.LogIsWellFormed | lib/SEGGER/SEGGER_SYSVIEW.c:748-903 | if all events have the structure of their ids, so has every stored packet, overflow packets and synchronisation included |
| Recording.HostReadsTrueStory | lib/SEGGER/SEGGER_SYSVIEW.c:748-903 | from whatever part of the stream a host has received, it decodes the stored packets in order, missing none that is complete, with their exact times |
| SysView.ResponseCanBeRead | lib/SEGGER/SEGGER_SYSVIEW.c:577-620 | whatever command the host sends, every event recorded to answer it has the structure of its id |
| SysView.AnswerIsReadable | lib/SEGGER/SEGGER_SYSVIEW.c:577-620 | so has everything that is recorded while a command is answered |
| SysView.EventMatches | lib/SEGGER/SEGGER_SYSVIEW.c:2030-2470 | the calls for interrupts, timers, tasks, idling, markers, samples and ends of calls send parameters of the structure that the host expects under their ids |
| SysView.SentKeepsReadable | lib/SEGGER/SEGGER_SYSVIEW.c:748-938 | after any call whose parameters have the structure of its id, and the command that may be answered behind it, all that the application has recorded can still be read |
| SysView.AddedKeepsReadable | lib/SEGGER/SEGGER_SYSVIEW.c:748-938 | so it can after any sequence of requests that can each be read |
| SysView.AnswerKeepsReadable | lib/SEGGER/SEGGER_SYSVIEW.c:577-620 | so it can after any command |
| SysView.SentIsAdded | lib/SEGGER/SEGGER_SYSVIEW.c:904-938 | a command answered in the middle of an event does not change what was requested around it |
| SysView.Recorder.constructor | lib/SEGGER/SEGGER_SYSVIEW.c:1431-1463 | recording starts off, at the initial time stamp |
| SysView.Recorder.TrySendOverflowPacket | lib/SEGGER/SEGGER_SYSVIEW.c:644-674 | on the ring, the static state and the stream this is the overflow step of the recording model, with the room that there is |
| SysView.Recorder.OverflowBytes | lib/SEGGER/SEGGER_SYSVIEW.c:645-660 | the local buffer then holds the encoding of an OVERFLOW packet |
| SysView.Recorder.FrameEvent | lib/SEGGER/SEGGER_SYSVIEW.c:797-884 | header, payload and delta in the static buffer are the encoding of the packet |
| SysView.Recorder.PostEvent | lib/SEGGER/SEGGER_SYSVIEW.c:797-902 | this is the event step of the recording model, with the room that there is |
| SysView.Recorder.TryToStore | lib/SEGGER/SEGGER_SYSVIEW.c:763-902 | any event, in any state, is one step of the recording model; the host can only have made more room |
| SysView.Recorder.StoreEvent | lib/SEGGER/SEGGER_SYSVIEW.c:763-902 | the same with the history extended by exactly this event |
| SysView.Recorder.SendPacket | lib/SEGGER/SEGGER_SYSVIEW.c:748-938 | adds its own event and then, only outside of a command, at most one command with its full answer, which it never leaves out when one is waiting; RecursionCnt returns to its entry value and measures termination |
| SysView.Recorder.PollCommands | lib/SEGGER/SEGGER_SYSVIEW.c:920-932 | a waiting command is taken and fully answered, unless one is being answered already |
| SysView.Recorder.IsStarted | lib/SEGGER/SEGGER_SYSVIEW.c:3602-3616 | does the same and returns the state that results |
| SysView.Recorder.HandleIncomingPacket | lib/SEGGER/SEGGER_SYSVIEW.c:577-620 | takes one command and its parameter from the down channel and requests exactly what answers it |
| SysView.Recorder.Answer | lib/SEGGER/SEGGER_SYSVIEW.c:580-617 | each command has its response; unknown ones have none |
| SysView.Recorder.RecordCall | lib/SEGGER/SEGGER_SYSVIEW.c:1490-1832 | a recording call sends its id and its encoded parameters |
| SysView.Recorder.RecordEvent | lib/SEGGER/SEGGER_SYSVIEW.c:2030-2470 | each report of an interrupt, timer, task, marker or sample is sent under its id with its parameters, and keeps what the application has recorded readable |
| SysView.Recorder.RecordNumbers | lib/SEGGER/SEGGER_SYSVIEW.c:1490-1807 | a call with up to ten numbers fits and is sent; it keeps what is recorded readable if the id has that structure |
| SysView.Recorder.RecordText | lib/SEGGER/SEGGER_SYSVIEW.c:1824-1832 | so is a text with up to two numbers before it |
| SysView.Recorder.RegisterData | lib/SEGGER/SEGGER_SYSVIEW.c:2541-2582 | so is a registration whose texts are short enough, and what is recorded stays readable |
| SysView.Recorder.SendCalls | lib/SEGGER/SEGGER_SYSVIEW.c:1973-1991 | calls made one after the other are requested in that order, whatever commands come in between |
| SysView.Recorder.RecordSystime | lib/SEGGER/SEGGER_SYSVIEW.c:2098-2109 | one system time event, of the kind that the configuration asks for |
| SysView.Recorder.SwitchOn | lib/SEGGER/SEGGER_SYSVIEW.c:1864-1872 | recording is on and the ten zeros are stored if they fit |
| SysView.Recorder.StartRecording | lib/SEGGER/SEGGER_SYSVIEW.c:1860-1896 | start event, system description, time, task list and module count are requested in this order after the switch, and what is recorded stays readable |
| SysView.Recorder.StopRecording | lib/SEGGER/SEGGER_SYSVIEW.c:1915-1924 | if recording was not off, a last event is requested and recording is switched off; else nothing happens |
| SysView.Recorder.PrintHost | lib/SEGGER/SEGGER_SYSVIEW.c:953-1020 | sends text, options, count and as many parameters as there are percent signs, sixteen at most, inside the static buffer |
| SysView.Recorder.EnableEvents | lib/SEGGER/SEGGER_SYSVIEW.c:3573-3575 | takes events out of the mask |
| SysView.Recorder.DisableEvents | lib/SEGGER/SEGGER_SYSVIEW.c:3587-3589 | adds events to the mask |
| SysView.Recorder.HostStory | lib/SEGGER/SEGGER_SYSVIEW.c:748-938 | if the application's own events have the structure of their ids, which all calls but those with a freely chosen id see to, then at any time what the host has received decodes to stored packets in order, with exact times, and completely once the ring is empty; those that are neither NOP nor OVERFLOW are, in order, events that were recorded, with their ids and payloads; state and drop count are as the model says, and all losses are accounted for |
| HostReader.ArgsReadBack | lib/SEGGER/SEGGER_SYSVIEW.c:1490-1832 | a host that knows the kinds of the parameters reads every number and every text back, texts up to their limit and 128 bytes, whatever follows |
| HostReader.NumbersReadBack | lib/SEGGER/SEGGER_SYSVIEW.c:1490-1807 | it reads back any list of numbers that fills the payload or has a known length |
| HostReader.EventReadsBack | lib/SEGGER/SEGGER_SYSVIEW.h:96-126 | from event number and payload it reads back every report of the application, tasks and timers by their addresses |
| HostReader.CountsPercentSigns | lib/SEGGER/SEGGER_SYSVIEW.c:970-996 | the parameters counted are the percent signs of the text, or sixteen if there are more |
| HostReader.PrintReadsBack | lib/SEGGER/SEGGER_SYSVIEW.c:953-1020 | it reads back the text of a print up to 128 bytes, the options, and as many parameters as there are percent signs, up to sixteen |
| HostReader.RegistrationReadsBack | lib/SEGGER/SEGGER_SYSVIEW.c:2541-2582 | it reads back every registration of a data source, whichever trailing zeros were left out |
| HostReader.AnswerIsUnderstood | lib/SEGGER/SEGGER_SYSVIEW.c:577-620 | to each command it gets the messages that it expects, in order and with all contents: start sequence, stop, time, tasks, system, number of modules, module descriptions, one module, or nothing |
| OneWire.BeforeIsTotal | src/comm/onewire/onewire.c:130-161 | lexicographic order with bit 0 first compares any two different codes |
| OneWire.BeforeIsTransitive | src/comm/onewire/onewire.c:130-161 | it is transitive |
| OneWire.PassStep | src/comm/onewire/onewire.c:131-160 | one bit of a pass keeps the code on the way to the least code that is still to come, and keeps track of the last branch |
| OneWire.PassFindsNext | src/comm/onewire/onewire.c:130-161 | a pass finds the next code in order; when it met no branch, no code comes after it |
| OneWire.IncreasingCounts | src/comm/onewire/onewire.c:117-166 | an increasing list of devices has as many entries as devices exactly if it has all of them |
| OneWire.CollectsOneMore | src/comm/onewire/onewire.c:164-165 | appending the next code keeps the list the increasing list of all codes up to its last |
| OneWire.PassMakesProgress | src/comm/onewire/onewire.c:117-166 | a pass extends the list of codes found by one |
| OneWire.ProgressCounts | src/comm/onewire/onewire.c:117-166 | before the last pass there is a code left to find: the search terminates |
| OneWire.Bus.Reset | src/comm/onewire/onewire.c:45-54 | presence is reported exactly if there are devices |
| OneWire.Bus.WriteBit | src/comm/onewire/onewire.c:56-69 | devices whose bit differs drop out |
| OneWire.Bus.ReadBit | src/comm/onewire/onewire.c:87-99 | the line is the conjunction of what the active devices send |
| OneWire.BitsReadBack | src/comm/onewire/onewire.c:127 | a device that takes the first bit for the lowest receives every command as it was given |
| OneWire.SendCommand | src/comm/onewire/onewire.c:127 | after the eight bits the devices have received this command, and those that it is meant for take part |
| OneWire.SearchPass | src/comm/onewire/onewire.c:130-161 | a pass over all 64 bits follows existing devices and takes the both-ones branch only when nobody takes part |
| OneWire.CommandAndPass | src/comm/onewire/onewire.c:127-161 | the command and the pass it begins |
| OneWire.InSlotInOrder | src/comm/onewire/onewire.c:164 | of up to 256 codes stored one after the other, slot i holds the i-th |
| OneWire.StaysInArrayExactly | src/comm/onewire/onewire.c:117-165 | every store is inside the array if and only if it has a slot for each device that answers, up to 256, and 255 slots when devices are there but none answers |
| OneWire.MaxDevicesIsNoLimit | src/comm/onewire/onewire.c:117 | an array of maxDevices slots is safe if and only if at least one and at most maxDevices devices answer, or nobody does and maxDevices is 255 |
| OneWire.QuietAlarmSearchStoresOutside | src/comm/onewire/onewire.c:146-164 | an alarm search over one device without an alarm stores to slot 254 of an array of eight |
| OneWire.SearchROM | src/comm/onewire/onewire.c:101-170 | for any set of devices and any array: which slots are stored to, and what those of them that the array has then hold; when devices answer there are exactly as many passes as devices, and the codes found are all of them once, in lexicographic order, so an array with room for them holds this list with the rest unchanged |
| DhcpOptions.OptFind | src/comm/network/dhcp/dhcpserver.c:146-154 | on the 308-byte field, whatever lies behind it, the scan terminates, finds what the recursive description finds, and looks at exactly the slots that this names |
| DhcpOptions.LooksBehindExactly | src/comm/network/dhcp/dhcpserver.c:147-151 | the scan reads the byte behind the field if and only if the chain of lengths leads to the last slot and what stands there is neither END nor the wanted code |
| DhcpOptions.LooksBehindNames | src/comm/network/dhcp/dhcpserver.c:147-151 | in a field with two host names of lengths 255 and 48, the scan for any other code but 0 reads the byte behind it |
| DhcpOptions.FindsWhatWasWritten | src/comm/network/dhcp/dhcpserver.c:146-154 | of options without code 255 that were written in order and closed by END within 308 bytes, the first with the wanted code is found with its length and data, or nothing when there is none |
| DhcpOptions.FirstWithIsFirst | src/comm/network/dhcp/dhcpserver.c:146-154 | the option found is the first with its code, at the place where the options before it end |
| DhcpOptions.OptWriteN | src/comm/network/dhcp/dhcpserver.c:156-162 | stores the encoded option, returns the place behind it and touches nothing else |
| DhcpOptions.OptWriteU8 | src/comm/network/dhcp/dhcpserver.c:164-170 | the same for one byte |
| DhcpOptions.OptWriteU32 | src/comm/network/dhcp/dhcpserver.c:172-181 | the same for a number in network order |
| DhcpOptions.BigEndianValue | src/comm/network/dhcp/dhcpserver.c:176-179 | the four bytes make up the number |
| DhcpOptions.WriteAppends | src/comm/network/dhcp/dhcpserver.c:156-181 | writing an option behind others keeps them |
| DhcpServer.HoldsUntil | src/comm/network/dhcp/dhcpserver.c:271 | cutting the expiry to 16 bits never shortens a lease and lengthens it by less than 65,536 ms |
| DhcpServer.ExpiredExactly | src/comm/network/dhcp/dhcpserver.c:229-230 | although ticks wrap, the test says expired exactly in every other stretch of 2^31 ms after the end, and never while the lease holds |
| DhcpServer.FreeingIsOk | src/comm/network/dhcp/dhcpserver.c:229-234 | an entry that tests as expired may be cleared: all acknowledgements of its address are more than a day old |
| DhcpServer.AckIsOk | src/comm/network/dhcp/dhcpserver.c:259-271 | an entry that is free or the client's own may be acknowledged to it |
| DhcpServer.ChangeKeepsOk | src/comm/network/dhcp/dhcpserver.c:214-278 | passing time, clearing and granting keep the table consistent with all past acknowledgements |
| DhcpServer.RunKeepsOk | src/comm/network/dhcp/dhcpserver.c:214-278 | so does every run from an empty table on |
| DhcpServer.NoRivalsWithinALease | src/comm/network/dhcp/dhcpserver.c:214-278 | over every run, two acknowledgements of an address to different non-zero MACs are more than 86,400,000 ms apart |
| DhcpServer.LeaseToldIsKept | src/comm/network/dhcp/dhcpserver.c:214-289 | over every run, they are further apart than the lease time that a client reads in the reply |
| DhcpServer.ClientIsUnderstood | src/comm/network/dhcp/dhcpserver.c:201-258 | the type and the address that a client has written are what the server goes by, whatever lies behind the field: types from 243 bytes on, and addresses from 16 to 23 in the server's network |
| DhcpServer.ReplyIsReadable | src/comm/network/dhcp/dhcpserver.c:284-289 | a client that scans the reply finds option 53 with the kind, 54, 3 and 6 with the server's address, 1 with the mask and 51 with the bytes 0, 1, 81, 128, each with its length |
| DhcpServer.KindIsInFieldExactly | src/comm/network/dhcp/dhcpserver.c:208-214 | the message type depends on the field alone if and only if the message is too short, has no type option, or has it at or below 305 |
| DhcpServer.TypeFromBehind | src/comm/network/dhcp/dhcpserver.c:208-214 | a message whose type option begins at 306 is a discovery or a request by what lies behind the field |
| DhcpServer.RequestedIsInFieldExactly | src/comm/network/dhcp/dhcpserver.c:247-256 | the address asked for depends on the field alone if and only if there is none, its option begins at or below 302, or the part of it that is in the field already differs from the server's network |
| DhcpServer.AddressFromBehind | src/comm/network/dhcp/dhcpserver.c:247-258 | a request whose address option begins at 303 asks for whichever address the first byte behind the field makes of it, or for none |
| DhcpServer.Requested | src/comm/network/dhcp/dhcpserver.c:247-258 | the address asked for, if it is the server's, is one of the eight |
| DhcpServer.EndedLeaseIsReused | src/comm/network/dhcp/dhcpserver.c:229-234 | while some lease ended less than 2^31 ms ago and was not renewed, a discovery finds an address |
| DhcpServer.RunningLeaseIsKept | src/comm/network/dhcp/dhcpserver.c:229-234 | a discovery leaves a lease alone that is still running when it ends, and does not offer its address to another client |
| DhcpServer.Server.constructor | src/comm/network/dhcp/dhcpserver.c:297-305 | the table starts out empty |
| DhcpServer.Server.Ticks | src/comm/network/dhcp/dhcpserver.c:230 | any time may pass; the clock is seen modulo 2^32 |
| DhcpServer.Server.Discover | src/comm/network/dhcp/dhcpserver.c:215-240 | a client that has an entry gets the first one; else the first entry is offered that is free or tests as expired at the moment its turn comes, all entries before it being taken and not expired; no entry is cleared that did not test as expired, and no other changes; when all are taken and held, nothing changes |
| DhcpServer.Server.Free | src/comm/network/dhcp/dhcpserver.c:232 | only an expired entry is cleared, and the table stays safe |
| DhcpServer.Server.Request | src/comm/network/dhcp/dhcpserver.c:259-271 | the address is granted exactly if its entry is free or the client's; then the entry holds client and expiry |
| DhcpServer.Server.WriteReply | src/comm/network/dhcp/dhcpserver.c:284-289 | the field then starts with the six options and END, and tells a client all this |
| DhcpServer.Server.FindRequested | src/comm/network/dhcp/dhcpserver.c:247-258 | finds the entry that the message asks for |
| DhcpServer.Server.Process | src/comm/network/dhcp/dhcpserver.c:183-291 | an acknowledgement is sent exactly for a request (3) of an address that is free or the client's, and then its entry holds client and expiry and no other entry changes; a discovery (1) is answered with the offer that Discover makes, or not at all when every entry is taken and held; nothing is sent and the table is kept in all other cases; a reply has op 2, an address from 16 to 23 in the server's network, and options that tell a client kind, addresses, mask and lease time; lease safety is kept |
| LineDrawing.PaintsOnePixel | src/display/ssd1327/ssd1327_gfx.c:42-66 | the pixel gets the lower half of the colour; all others keep theirs if and only if the column is even or the colour's upper half adds no bits to the left neighbour |
| LineDrawing.PaintsExactly | src/display/ssd1327/ssd1327_gfx.c:42-66 | with a colour up to 15, exactly the listed on-screen pixels change |
| LineDrawing.NearIsUnique | src/display/ssd1327/ssd1327_gfx.c:68-93 | for each place along the major axis there is only one offset within half a pixel, when of two that are half a pixel off the one nearer to the start counts |
| LineDrawing.StepStaysNear | src/display/ssd1327/ssd1327_gfx.c:82-91 | a step of the error term leads from such an offset to another, one further along the major axis |
| LineDrawing.TrailIsStraight | src/display/ssd1327/ssd1327_gfx.c:68-93 | the loop visits max(dx, dy) + 1 offsets, one for each place on the major axis, ends at (dx, dy), and each is the one within half a pixel, ties going to the start |
| LineDrawing.LineIsStraight | src/display/ssd1327/ssd1327_gfx.c:68-93 | the same for points in any direction: the line starts and ends on the given points |
| LineDrawing.LineStaysInside | src/display/ssd1327/ssd1327_gfx.c:68-93 | no point lies outside the rectangle that the endpoints span |
| LineDrawing.ErrFits | src/display/ssd1327/ssd1327_gfx.c:76-91 | the error term and its double never overflow 16 bits |
| LineDrawing.Display.DrawPixel | src/display/ssd1327/ssd1327_gfx.c:42-66 | paints the pixel if it is on the screen, else nothing |
| LineDrawing.Display.DrawLine | src/display/ssd1327/ssd1327_gfx.c:68-93 | with 8- and 16-bit arithmetic, the loop terminates and has painted exactly the points of the line |
| NumberPrinter.ParsesBack | lib/SEGGER/SEGGER_RTT_printf.c:196-204 | a numeral with enough digits parses back to its number |
| NumberPrinter.WidthIsExact | lib/SEGGER/SEGGER_RTT_printf.c:149-153 | the number of digits is enough, and one less is not |
| NumberPrinter.NumeralFromFront | lib/SEGGER/SEGGER_RTT_printf.c:197-199 | splitting off the first digit by the power of the base leaves the numeral of the remainder |
| NumberPrinter.FindDigit | lib/SEGGER/SEGGER_RTT_printf.c:182-192 | unless the loop divides by zero, the divisor that it ends with is not zero |
| NumberPrinter.StartsAtFirstDigit | lib/SEGGER/SEGGER_RTT_printf.c:182-192 | up to 10 (base 10) or 8 (base 16) digits, the 32-bit divisor ends as the power that belongs to the first digit to be printed |
| NumberPrinter.PrintsAllDigitsExactly | lib/SEGGER/SEGGER_RTT_printf.c:182-204 | max(minimal digits, NumDigits) digits come out for a number if and only if NumDigits is at most 10 or 8 |
| NumberPrinter.ShowsNumeral | lib/SEGGER/SEGGER_RTT_printf.c:196-204 | when the divisor is a power of the base, the quotients that the loop looks up are the digits of the number |
| NumberPrinter.UnsignedTextIsRight | lib/SEGGER/SEGGER_RTT_printf.c:136-220 | the text has length max(FieldWidth, digits); the digits stand at the end that the flags say and parse back to the number; every other character is a zero if zeros are asked for on the left without a minimum count, else a blank |
| NumberPrinter.IntTextIsRight | lib/SEGGER/SEGGER_RTT_printf.c:226-296 | the same with a sign: its place before zeros or behind blanks, the magnitude that the digits parse back to, and every padding character are given |
| NumberReader.ReadsUnsignedBack | lib/SEGGER/SEGGER_RTT_printf.c:136-220 | a reader that strips blanks and accepts nothing but digits of the base reads back every number, for all bases, digit counts, field widths and flags; how much of the field is blank is given |
| NumberReader.ReadsIntBack | lib/SEGGER/SEGGER_RTT_printf.c:226-296 | with an optional sign it reads back every number above INT_MIN, sign included |
| NumberReader.SignIsPrinted | lib/SEGGER/SEGGER_RTT_printf.c:226-296 | the text begins with a minus exactly for negative numbers, and with a plus exactly for others when the flag asks for it |
| PrinterLimits.DividesByZeroExactly | lib/SEGGER/SEGGER_RTT_printf.c:182-192 | the divisor wraps to zero and is divided by if and only if more than 32 decimal or 8 hexadecimal digits are asked for, whatever the number is |
| PrinterLimits.StaysInTableExactly | lib/SEGGER/SEGGER_RTT_printf.c:196-200 | with a given divisor, the lookups of all numbers stay in the table of sixteen digits if and only if each of its quotients by the base leaves remainders small enough for the next one |
| PrinterLimits.PowersStayInTable | lib/SEGGER/SEGGER_RTT_printf.c:196-204 | powers of the base are such divisors |
| PrinterLimits.LeadDecides | lib/SEGGER/SEGGER_RTT_printf.c:196-204 | for decimal numbers this depends on the first two digits of the divisor alone: they must not be 17, 18 or 19 |
| PrinterLimits.FindsAllDigitsExactly | lib/SEGGER/SEGGER_RTT_printf.c:182-204 | for a base and a digit count, every number that is printed without a division by zero has all of its digits looked up inside the table if and only if the count is not seventeen decimal digits |
| PrinterLimits.SeventeenOfSeventeen | lib/SEGGER/SEGGER_RTT_printf.c:182-200 | printing 17 with 17 decimal digits ends with a lookup at place 17 of that table |
| NumberPrinter.Printer.StoreChar | lib/SEGGER/SEGGER_RTT_printf.c:111-130 | cutting into 64-byte chunks preserves the text; the count grows by one, or turns -1 when RTT does not take all of a chunk, and then what RTT has is a prefix of what was printed |
| NumberPrinter.Printer.PadField | lib/SEGGER/SEGGER_RTT_printf.c:167-173 | pads up to the width and says how much of the field is left |
| NumberPrinter.Printer.FieldWidthOf | lib/SEGGER/SEGGER_RTT_printf.c:149-156 | the loop computes the number of digits to be printed |
| NumberPrinter.Printer.FirstDigit | lib/SEGGER/SEGGER_RTT_printf.c:182-192 | for any digit count, the loop computes the divisor for the first digit in 32-bit arithmetic, or comes to divide by zero |
| NumberPrinter.Printer.PutDigits | lib/SEGGER/SEGGER_RTT_printf.c:196-204 | for any divisor, as many characters are printed as it has digits, and they show its successive quotients |
| NumberPrinter.Printer.PutBody | lib/SEGGER/SEGGER_RTT_printf.c:182-204 | there is a division by zero, or as many digits come out as the divisor has; for up to 10 or 8 digits they are the numeral |
| NumberPrinter.Printer.PrintUnsigned | lib/SEGGER/SEGGER_RTT_printf.c:136-220 | unless RTT refuses something or there is a division by zero, exactly the padded digits are added and counted; for digit counts up to 10 or 8 there is no such division and it is exactly the specified text |
| NumberPrinter.Printer.PutFront | lib/SEGGER/SEGGER_RTT_printf.c:250-287 | spaces, sign and zeros in the right order, and how much of the field is left |
| NumberPrinter.Printer.PrintInt | lib/SEGGER/SEGGER_RTT_printf.c:226-296 | the same with a sign, for every number above INT_MIN |
| Eeprom.PieceDoesNotWrap | src/storage/24lc01b.c:102-110 | a piece that ends by the end of its page is stored where it should be, on a chip whose page write wraps |
| Eeprom.LongPieceWraps | src/storage/24lc01b.c:102-110 | a longer piece is not: its last byte ends up elsewhere |
| Eeprom.CopiedInOrder | src/storage/24lc01b.c:102-123 | writing piece after piece is writing all at once |
| Eeprom.CopiedAt | src/storage/24lc01b.c:102-123 | each place on the chip holds the last byte that came to it, whatever the length |
| Eeprom.CopiedElsewhere | src/storage/24lc01b.c:102-123 | a place that no byte came to is unchanged |
| Eeprom.CopiedPlainly | src/storage/24lc01b.c:102-123 | with addr + len <= 128 the result is the plain copy, everything else unchanged |
| Eeprom.ReadsBack | src/storage/24lc01b.c:102-128 | data up to the chip's size are read back, from any address |
| Eeprom.LongerIsLost | src/storage/24lc01b.c:102-128 | longer data whose last byte differs from the one 128 places before it are not |
| Eeprom.ReadsBackExactly | src/storage/24lc01b.c:102-128 | all data of a length are read back if and only if they are no longer than the chip |
| Eeprom.Chip.StorePage | src/storage/24lc01b.c:47-66 | the chip's page write, with the address wrapping inside the page |
| Eeprom.Chip.Write | src/storage/24lc01b.c:19-66 | stores one to eight bytes, or fails and stores nothing; it fails only for a wrong size or when the bus does |
| Eeprom.Chip.Read | src/storage/24lc01b.c:68-100 | reads the bytes from the address on, going on at address 0 |
| Eeprom.Chip.WriteBlob | src/storage/24lc01b.c:102-123 | writes everything and returns the next address, or, exactly if the bus fails, returns 0 with exactly the earlier pieces stored |
| Eeprom.Chip.ReadBlob | src/storage/24lc01b.c:125-128 | reads what is at the address, taken modulo the chip's size |
| Crc8.RunXor | src/sensors/dht20/dht20.c:5-14 | taking in bits one by one and adding a byte at once lead to the same register: the two loops compute the same kind of checksum |
| Crc8.RunTells | src/sensors/ds18b20/ds18b20.c:12-26 | the same bits keep different registers different |
| Crc8.ByteClears | src/sensors/ds18b20/ds18b20.c:12-26 | a byte brings the register to zero exactly if it equals the register |
| Crc8.BytesTell | src/sensors/dht20/dht20.c:5-14 | from the same register, different bytes lead to different registers |
| Crc8.AcceptsExactlyTheChecksum | src/sensors/ds18b20/ds18b20.c:12-26 | data followed by c are accepted if and only if c is the checksum of the data, for messages of any length |
| Crc8.PackIsExact | src/sensors/ds18b20/ds18b20.c:12-26 | any up to eight consecutive bits are the bits of some byte, in either bit order |
| Crc8.DetectsBurst | src/sensors/dht20/dht20.c:5-14 | bits that differ only within a stretch of eight lead to different checksums, wherever the stretch lies |
| Crc8.BitsDetermineBytes | src/sensors/ds18b20/ds18b20.c:12-26 | messages with the same bits are the same |
| Crc8.BurstIsNotAccepted | src/sensors/ds18b20/ds18b20.c:12-26 | an accepted frame is no longer accepted after an error burst of at most eight consecutive bits, in either bit order, across byte and checksum boundaries |
| CrcDivision.BitsAre | src/sensors/ds18b20/ds18b20.c:12-26 | bits are taken lowest first, or highest first |
| CrcDivision.RunDivides | src/sensors/dht20/dht20.c:5-14 | from any register, what is still to come brings it to zero if and only if, with the register added to its front, it is a multiple of x^8 + x^5 + x^4 + 1 |
| CrcDivision.AcceptsExactlyMultiples | src/sensors/ds18b20/ds18b20.c:12-26 | a frame is accepted if and only if its bits are a multiple of x^8 + x^5 + x^4 + 1 over two elements, with the first eight inverted for the checksum that begins at 0xFF |
| Crc8.DS18B20Crc | src/sensors/ds18b20/ds18b20.c:12-26 | the two loops accept exactly the frames that carry their own checksum |
| Crc8.DHT20Crc | src/sensors/dht20/dht20.c:5-14 | the two loops compute the checksum (SGP30_CRC, src/sensors/sgp30/sgp30.c:9-20, is the same code) |
| Bme280.OverflowsExactly | src/sensors/bme280/bme280.c:8-15 | no 32-bit intermediate overflows, for all T2 and T3, if and only if abs((adcT >> 4) - T1) <= 16384 |
| Bme280.TempIsAccurate | src/sensors/bme280/bme280.c:8-15 | within that range the result is within 0.0125 degrees C of the exact rational polynomial, roundings of all shifts included |
| Bme280.FineIsClose | src/sensors/bme280/bme280.c:10-12 | t_fine is within 33 units of its exact value |
| Bme280.ShiftsRound | src/sensors/bme280/bme280.c:8-15 | each intermediate shift rounds down and the last one to the nearest |

## Left out

- RTT: WriteDownBuffer, PutChar, GetKey and buffer allocation; locks, memory barriers below the step level and cache
  options; the assembly version of WriteSkip.
- `SEGGER_RTT_ReadNoLock` and the down channel: the reader is the code of `SEGGER_RTT_ReadUpBufferNoLock`, so the recorder's
  down channel is represented by the bytes in it.
- RttBuffer.RttBuffer.WriteWithOverwriteNoLock: for lengths that wrap more than once the contents are not stated as the
  newest bytes, because they are not; see `Overwrite.KeepsNewestExactly`.
- RttBuffer.RttBuffer.WriteBlocking: the host's reads happen at the start of a round; finer interleavings are in
  `RttProtocol`. Without a reading host a call on a full ring does not return, so it is observed for a given schedule.
- SystemView: post-mortem mode, the long-data branch, `RegisterModule`, the target-side formatter `_VPrintTarget`, packets that
  the application builds itself (`SEGGER_SYSVIEW_SendPacket`, `SEGGER_SYSVIEW_EncodeData` and their like), and heap and
  name events, which are further calls of `RecordNumbers` and `RecordText` (a float is sent as its 32 bits).
- SysView.Recorder.RecordCall: a list of parameters of more than 215 bytes is not representable; of the source's calls only a
  registration with long texts makes one, see `PacketBuffer.RegistrationFitsExactly`.
- SysView.Recorder.RegisterData: requires texts that are short enough, since longer ones do not fit the static buffer.
- SystemView callbacks, tasks and modules are a fixed configuration; what a callback sends is its texts and tasks in order.
- SysView.Recorder.HostStory: says nothing about application events under an id below 24 whose payload has another
  structure; nobody can decode these.
- SysView.Recorder.PrintHost: arguments are given as 32-bit numbers; fetching them from a `va_list` is not modelled.
- 1-Wire: the PIO driver, `OneWire_Init`, the config status field and `OneWire_Write`. Codes are 64 bits, not a number.
- OneWire.SearchROM: what a store outside of the caller's array does to other memory is not modelled; which slots are stored to
  is stated for all arrays, inside or outside.
- DHCP: lwIP, sending, the `printf`, NACK, RELEASE and other message types (the code ignores them), and RFC 2131's client
  side. Nothing is claimed about all-zero MACs or about a client holding only one address.
- DhcpServer.Server.Process: the bytes behind the option field are any five bytes that do not change while a message is
  handled; a message that is shorter than the field leaves the rest of it as it was, so the field is taken as a whole.
- Display: commands, fonts and rectangles.
- NumberPrinter.Printer.PrintInt: INT_MIN, whose negation overflows, is not representable.
- NumberPrinter.Printer.PrintUnsigned: for seventeen decimal digits a lookup outside the table of digits gives any character.
  Format parsing and the return value of `SEGGER_RTT_vprintf` are not modelled, and nothing is said about the text after RTT
  has refused a chunk.
- EEPROM: the wait for a write cycle and the mutex; a bus write that fails after part of a page was stored. `sleep_ms` and
  the disabled speed checks have no effect in this build.
- Sensors: everything but the two checksum loops and the temperature formula; pressure and humidity need calibration
  ranges of their own, and dew point and averages are floating point.
- MQTT, HTTP, WiFi, FreeRTOS tasks, the real-time clock, storage headers, JSON, logger and encoder.
