# ubd: a verified model

ubd connects an RS485 bus, reached through a serial bridge, with IPv6. This project models the parts of the daemon
that are state machines of their own and proves what they keep over whole runs.

| file | models | main results |
|---|---|---|
| `Serial.dfy` | escape framing, `src/serial.c` | round trip iff every message has 1..50 bytes, room iff at most 100, injective encoding, when the decoder resynchronises |
| `Packets.dfy` | packet layout and command building, `src/packet.c`, `src/busmgt.c` | a command survives the wire or is not queued at all |
| `Pump.dfy`, `PumpSafety.dfy`, `PumpFaults.dfy`, `PumpThreads.dfy`, `PumpEvents.dfy` | writer and reader thread and dispatch, `src/packet.c` | every packet reported in every run, one report per message in queue order, reply routing, who gets each kind of event; exactly when a data race, a report to the wrong stream or a null pointer can come about; status accounting in every run; from the queue over the line to the bridge, and back to the reader |
| `Nodes.dfy` | slot table, `src/nodes.c` | numbering is rank and select |
| `BusMgt.dfy` | registration, handshake, tick, `src/busmgt.c`, `src/mgt.c` | the handlers in place against their specification |
| `Handlers.dfy` | each packet and the tick, in bytes, `src/busmgt.c`, `src/mgt.c` | what every event does to the table and what it puts on the wire |
| `Lifecycle.dfy`, `NodeLife.dfy`, `Addresses.dfy` | runs of packets, ticks and network events | address uniqueness and exactly when it fails, handshake order, keep-alive lease, allocator bound |
| `EndToEnd.dfy` | the commands of the bus management on their way to the bridge | the bridge decodes them complete and in order |
| `Groups.dfy` | multicast groups, `src/groups.c` | the table is the first 127 calls with distinct names |
| `Directory.dfy` | service leases, `src/directory-server.c` | the table refines the event history for every lease time |
| `Tcp.dfy` | command framing, `src/net_tcp.c` | the byte automaton refines a frame reader; round trip and buffer bound, both exact |
| `Console.dfy` | control console, `src/cmdparser.c` | the byte automaton refines a line splitter |

Each component has a specification on values and a class with the fields the C code has. The methods of the class are
the C functions, loops included, and their contracts equate the new state with the specification; the theorems are
about the specification, over all inputs and all runs.

`dafny verify dfyconfig.toml` checks everything.

## Where the code and its comments differ

- `src/packet.c:107-110` says that the order of the protocol makes a mutex unnecessary. That is right of a run exactly
  if no two-second wait of the writer runs out in it and no status comes but one for each message begun
  (`PumpFaults.NoMutexNeededExactly`). Either one lets the rest of the run, with the bridge and the clock behaving
  again, reach a data race. A wait that runs out with `nextnode` set needs no late status for that: a plain packet from
  the node is enough (`PumpFaults.TimeoutAloneRaces`).
- With a bridge that never sends a status too many, a wait that runs out is also exactly what it takes for an
  acknowledgement to be reported with the callback or data of another message, and for the reader to find `nextnode`
  set and then follow it as NULL, a crash (`PumpFaults.OnlyTimeoutsFail`). It does not matter whether the status of the
  message given up on is still to come, on the line or already in the reader's hand, nor what is queued: once the bridge
  is a message behind, it stays so.
- `src/directory-server.c:229` accepts ports up to 65635; the model keeps that bound.
- `config.dirttl` is a `gint` stored in a `uint32_t` (`src/directory-server.h:21`): a negative lease time is a very
  long one, and zero lives for one tick. `Directory.Lease` and `Directory.Life` say so.
- `src/serial.c:109` is meant to catch a full buffer but asks for `fill >= 100` where `fill` is -1; it never acts, so
  the bytes of a frame after the 100th are stored past the end. Of the streams `serial_writeMessage` writes, exactly
  those with a message of more than 100 bytes do that (`Serial.FramesFit`). The length of a frame also passes through
  a `uint8_t` (`src/serial.c:117`), which `Serial.Read` truncates; what the reader delivers is stated for streams that
  fit.
- The allocator promises addresses 3..254. When all are held it returns -1, and the node is registered and activated
  with it: its commands go to the broadcast address (`Addresses.AddressesRunOut`). Each address stays in range exactly
  if no discover gets a slot while 252 ordinary nodes are active (`Addresses.AddressesInRange`).

## Model

| member | source | states |
|---|---|---|
| Serial.SerialLine.PutEnc | src/serial.c:42-50 | exactly the payload with each escape byte doubled is appended to the line |
| Serial.SerialLine.WriteMessage | src/serial.c:145-154 | exactly one frame, start mark, escaped payload, end mark, is appended |
| Serial.SerialLine.Take | src/serial.c:78-113 | one byte takes the decoder to the specified state; a finished frame is in the buffer, its length returned, and the assertion fails only on an end mark outside a frame |
| Serial.SerialLine.ReadMessage | src/serial.c:115-143 | the loop returns what the specification reads from the stream, the length going through a uint8_t, leaving the decoder and the unread bytes it says |
| Serial.Read | src/serial.c:115-143 | a message handed on has 1..50 bytes and reading it consumed input |
| Serial.FramesComeBack | src/serial.c:78-113 | any list of messages, framed and fed to an unescaped decoder in any fill state, yields that list frame by frame; `Serial.FramesFit` says for which lists the buffer is large enough |
| Serial.ReaderRefinesFrames | src/serial.c:115-143 | on every stream that trips no assertion and stays inside serial_buffer the reader delivers the non-empty frames up to the first one above 50 bytes |
| Serial.FrameBytes | src/serial.c:42-50 | a frame is a backslash and 1, the payload with each backslash doubled, a backslash and 2 |
| Serial.RoundTrip | src/serial.c:115-154 | the reader stays inside its buffer and delivers exactly the messages written if and only if each has 1..50 bytes |
| Serial.EncodingIsInjective | src/serial.c:145-154 | different message lists, empty messages included, have different encodings |
| Serial.Resynchronises | src/serial.c:87-111 | after any noise that tripped no assertion and stayed inside serial_buffer, later frames stay inside it and come through complete if and only if the last run of escape bytes of the noise, with an escape pending before it, is even and each message has at most 100 bytes |
| Serial.FramesFit | src/serial.c:106-111 | reading frames of written messages stays inside serial_buffer if and only if each message has at most 100 bytes |
| Packets.BuildCommand | src/busmgt.c:234-254 | the countdown loop leaves the command byte followed by the data, or nothing is queued when they exceed 45 bytes |
| Packets.Masked | src/packet.c:217-217 | of the flags a sender sets only MGT and NOACK survive, unchanged |
| Packets.CommandBytes | src/busmgt.c:234-254 | a command is the bytes 1, destination, 16, class, length, command, data |
| Packets.CommandReachesBridge | src/busmgt.c:234-254 | above 44 data bytes nothing is queued; otherwise the serial frame decodes to source 1, the given destination, flag MGT, and payload command then data |
| Pump.StatusAccounting | src/packet.c:68-144 | in every run, with late and spurious statuses and timeouts: ended waits plus queued statuses equal received statuses plus timeouts, so messages written minus statuses received is at most 1 plus the timeouts; each status sent is received, in the reader's hand or on the line |
| PumpEvents.StatusesArePassedOn | src/packet.c:54-88 | in every run the statuses the bridge sent are those the writer popped, those it has yet to pop, the one in the reader's hand and those on the line, in this order and unchanged |
| PumpEvents.PacketsAreReported | src/packet.c:33-53 | in every run the packets the bridge sent are those of the events posted, the one in the reader's hand and those on the line, in this order: none is lost, made up or reordered, each has its flags and payload, the node found when it was read, and the number of statuses sent before it |
| PumpEvents.DoneIsAcknowledged | src/packet.c:54-70 | in every run, timeouts included, an event says Done only for a status Done of the bridge, the one it is about |
| PumpEvents.TimeoutIsReported | src/packet.c:132-144 | a wait that runs out is followed, whatever the reader does meanwhile, by exactly one event of the writer, an abort with the data and callback of nextnode (NULL if an abort of the bridge has just cleared it), and the callback is cleared; with nextnode NULL by none |
| PumpSafety.QueueOrder | src/packet.c:101-117 | in every run the messages queued are those written, the one the writer holds and those still queued, in that order: nothing is lost, reordered or written twice |
| PumpSafety.NoDataRace | src/packet.c:105-116 | in every interleaving where no wait runs out and no status is too many, the threads are never about to touch the same shared variable with one of them writing it |
| PumpFaults.FirstUnfairStepRaces | src/packet.c:105-116 | after any one step of such a run a race can be reached, bridge and clock behaving from there on, if and only if the step let a wait run out or brought a status too many, whatever the threads were doing |
| PumpFaults.NoMutexNeededExactly | src/packet.c:107-110 | no state that a run passes through can lead to a race in this way if and only if no wait runs out in the run and no status is too many |
| PumpFaults.TimeoutAloneRaces | src/packet.c:132-143 | wherever in any run a wait runs out with nextnode set, a race can be reached with no further timeout and no further status |
| PumpSafety.StopAndWait | src/packet.c:97-146 | in those runs the writer has begun at most one message more than it has ended waits, so at most one is unacknowledged, and the reader never uses nextnode while it is NULL |
| PumpSafety.OneReportEach | src/packet.c:54-88 | in those runs the status events posted are, in the order the messages were queued, one for each handled message with a node, with the bridge's status and the message's own callback and data; each message whose wait has ended is among the handled ones |
| PumpSafety.RepliesAreRouted | src/packet.c:39-49 | in those runs a packet event carries the callback and data of the last message queued to its node that was acknowledged before it was read, with the callback NULL if a later one was aborted |
| PumpSafety.CurrentMeaning | src/packet.c:57-84 | the current fields of a node, computed message by message, are those of its last acknowledged message, the callback cleared by any later abort |
| PumpThreads.RepliesReachTheirStream | src/packet.c:177-188 | in those runs dispatch hands each solicited packet of a node to that callback; if there is none, to the bus management if it has the MGT bit and to the listeners of the node otherwise |
| PumpEvents.PacketsAreDispatched | src/packet.c:177-193 | in every run an MGT packet from an unknown address, and an unsolicited one from any node, goes to the bus management, other unsolicited data to the listeners of its node, and the rest from unknown addresses to nobody |
| PumpEvents.StatusesAreDispatched | src/packet.c:177-190 | in timely runs the i-th status reaches the callback of the i-th message queued with its data, or nobody if it has none |
| PumpEvents.DispatchOrder | src/packet.c:155-199 | events are taken one by one in the order posted, and events posted stay |
| PumpThreads.PacketPump.StreamPacket | src/packet.c:209-228 | the queued message is the packed packet with source 1 and masked flags, with the node, callback and data given |
| PumpThreads.BridgeReadsQueue | src/packet.c:101-116 | in every run what the bridge decodes from the line is complete and in queue order: frame i has source 1 and the destination, masked flags and payload of packet i of those queued |
| PumpThreads.PacketPump.WriterSends | src/packet.c:101-117 | the loop body up to the wait is the specified statements of the writer in a row, and the line carries one frame for each message written, in that order |
| PumpThreads.PacketPump.WriterWaits | src/packet.c:119-144 | a queued status ends the wait; a timeout runs the specified statements, reporting an abort and clearing the callbacks |
| PumpThreads.FirstByteDecides | src/packet.c:32-92 | S is an acknowledgement, A an abort, P a packet whose third byte is its flags, and anything else is ignored |
| PumpThreads.ReaderHearsBridge | src/packet.c:30-38 | of messages of 1..50 bytes that the bridge frames, the reader gets all, in order and each decoded by its first byte, without overrunning its buffer |
| PumpThreads.PacketPump.Arrive | src/serial.c:115-143 | the bytes of one more frame on the tty are one more message, last, for the reader to get |
| PumpThreads.PacketPump.ReaderReads | src/packet.c:30-93 | the loop body, serial_readMessage and the switch on the first byte included, is the specified statements of the reader in a row for the first message of the line, for packets, both statuses and anything else |
| PumpThreads.PacketPump.InPacket | src/packet.c:155-199 | events are dispatched in posting order to the specified target, and the branch that loops forever is unreachable |
| PumpFaults.FirstTimeoutFails | src/packet.c:105-144 | after any one step of a timely run that brings no status too many, each of three faults can be reached, bridge and clock behaving from there on, if and only if the step let a wait run out: a data race, an acknowledgement reported with the stream of another message, a null nextnode dereferenced |
| PumpFaults.OnlyTimeoutsFail | src/packet.c:54-144 | with a bridge that never sends a status too many, no state that a run passes through can lead to such a fault if and only if no wait runs out in the run |
| Bytes.First | src/nodes.c:88-116 | a scan yields the first entry that satisfies its condition, and none only if no entry does |
| Nodes.NodeTable.GetFreeNode | src/nodes.c:31-51 | the first free slot is returned with its network, groups and classes wiped, and nothing else changes |
| Nodes.NodeTable.GetNodeCount | src/nodes.c:63-73 | the number of allocated slots |
| Nodes.NodeTable.GetNode | src/nodes.c:75-86 | the slot returned is allocated and has exactly k allocated slots below it; NULL only if k is not a number below the count |
| Nodes.NodeTable.GetNodeById | src/nodes.c:88-100 | the first allocated slot with the id |
| Nodes.NodeTable.GetNodeByBusAdr | src/nodes.c:102-116 | the first allocated and active slot with the address |
| Nodes.EnumerationIsBijective | src/nodes.c:75-86 | numbering is increasing and injective, for every pattern of free slots |
| Nodes.EnumerationIsTotal | src/nodes.c:63-86 | every number below the count is the number of some allocated slot |
| Nodes.NumberIsSlot | src/nodes.c:75-86 | if the allocated slots form a prefix, number k is slot k |
| BusMgt.FreeAdrFrom | src/busmgt.c:27-36 | the result is unheld and in 3..254, and everything below it, or everything if it is -1, is held |
| BusMgt.Gateway.GetFreeBusAdr | src/busmgt.c:27-36 | the loop returns that address |
| BusMgt.Gateway.RegisterNode | src/mgt.c:49-78 | the known slot or the first free one gets id, fixed or free address, type and activity; a full table changes nothing |
| BusMgt.Gateway.InPacketArrived | src/busmgt.c:38-152 | table and queued packets after a management packet, for every type, or the crash where an unknown node is dereferenced |
| Handlers.IdIsText | src/busmgt.c:49-139 | the id is the text after the six bytes of a discover, the four of a bridge packet, or none, up to a zero byte |
| Handlers.RegistersNode | src/mgt.c:49-78 | registration succeeds iff the id is known or a slot is free; a known node keeps network state, groups and classes, a new one gets the first free slot with network down, no groups and no classes; address, type and activity are set and no other slot changes |
| Handlers.DiscoverAdmits | src/busmgt.c:49-80 | a discover with room puts its node into identification with a fresh timer, a free address and the classes of the packet; without room nothing happens |
| Handlers.DiscoverAnnounces | src/busmgt.c:75-77 | the bridge decodes the query interval and everyone the address command, both with the address the table now has for the node |
| Handlers.IdentifyWelcomes | src/busmgt.c:83-116 | an expected identify is answered with the groups of the node in order, O and V, and puts it into normal operation; with the network down nothing happens; an unexpected one is reset |
| Handlers.BridgeWelcomes | src/busmgt.c:133-150 | a bridge packet that does not crash leaves the bridge active at address 2 in normal operation with its classes, and is greeted in the same way |
| Handlers.AliveAnswers | src/busmgt.c:123-131 | a keep-alive restarts the timer of the node at its address and nothing else; from an address nobody holds it is answered with a reset |
| Handlers.VersionCrashesExactly | src/busmgt.c:117-121 | a version packet dereferences NULL iff nobody holds its address, and changes nothing |
| Handlers.TickTouches | src/mgt.c:80-97 | a tick sends nothing and leaves id, address, network state, groups and classes of every node alone; only live nodes lose a tick, or at zero their type and activity |
| Handlers.ResetsExactly | src/busmgt.c:49-150 | a timer is restarted by exactly the discover or bridge packet naming its node, the identify it expects with its network up, and the keep-alive from its address |
| BusMgt.Gateway.SendMulticastGroups | src/busmgt.c:214-225 | one command per group that is set, in order |
| BusMgt.Gateway.CheckTimeout | src/mgt.c:80-97 | each live node is decremented exactly once, those at zero are dropped, and no other slot changes |
| Lifecycle.ReachableInv | src/busmgt.c:38-152 | in every table of every run: allocated slots form a prefix, active means identifying or normal, ids are distinct, active nodes hold distinct addresses in 3..254 or -1, the bridge 2 |
| Lifecycle.BridgeCrashesExactly | src/busmgt.c:133-148 | a bridge announcement dereferences NULL if and only if the bridge is unknown and the table is full |
| Lifecycle.SlotsPersist | src/nodes.c:31-86 | over a run slots are never given back: a node keeps its slot, its id and its number |
| Lifecycle.OnlyRegistrationActivates | src/mgt.c:49-78 | in every run nobody becomes active but by a discover or bridge packet naming it, so an identify activates no one |
| Lifecycle.IdentifyIsAnswered | src/busmgt.c:91-114 | OK is sent if and only if a node awaiting identification has that id and its network up, a reset if and only if no such node awaits it |
| Lifecycle.GroupCommandsExactly | src/busmgt.c:214-225 | a packet is among the group commands if and only if it names a group that is set |
| NodeLife.KeepAliveExactly | src/mgt.c:80-97 | in every run a node is active if and only if a discover, accepted identify, keep-alive or bridge packet restarted its timer at most nodetimeout ticks ago, or nodetimeout is negative and something ever did |
| NodeLife.HandshakeOrder | src/busmgt.c:49-116 | an ordinary node in normal operation got there by a discover naming it, then, while still identifying, an identify naming it with the network up, and has stayed so |
| Addresses.HeldBelow | src/nodes.c:102-116 | by pigeonhole, when every address from 3 up to some bound is held, at least that many nodes are active |
| Addresses.AllocatorBound | src/busmgt.c:27-36 | the address handed out is at most 3 plus the number of active nodes |
| Addresses.AllocatorLimits | src/busmgt.c:27-36 | -1 comes back only with at least 252 active nodes, and with fewer than 125 the address is below 0x80 |
| Addresses.RoomExactly | src/busmgt.c:27-36 | while all addresses are in range, the allocator finds one if and only if fewer than 252 ordinary nodes are active |
| Addresses.AddressesInRange | src/mgt.c:67-76 | ordinary active nodes keep to 3..254 all through a run if and only if each of its discovers found the table full or fewer than 252 ordinary nodes active; active nodes then hold pairwise distinct addresses |
| Addresses.AddressesRunOut | src/busmgt.c:34-35 | there is a run of 254 discovers after which two active nodes share the address -1, which commands turn into broadcast |
| Addresses.IntervalIsRepeated | src/busmgt.c:50-77 | a discover queues two packets; the bridge decodes the first to the interval command with the two interval bytes of the discover unchanged, and everyone the second to the address command with the id |
| EndToEnd.AnswersPass | src/packet.c:213-217 | every packet the bus management sends, in answer to any event and from any table, has at most 45 data bytes and no flag that is masked out |
| EndToEnd.BridgeReadsCommands | src/busmgt.c:234-254 | for any run of the gateway and any run of the threads on the packets it sends, the bridge decodes the first of these packets, one for each message written, in the order sent, with destination, flags and payload unchanged |
| Groups.GroupTable.AddGroup | src/groups.c:66-110 | a new name with a socket is appended with the next address; a duplicate, a full table or a failed socket changes nothing |
| Groups.GroupTable.GetGroupByName | src/groups.c:142-150 | the first group with the name |
| Groups.GroupTable.GetGroupByBusAddress | src/groups.c:132-140 | the first group with the address |
| Groups.GroupTable.GetBusAddress | src/groups.c:112-119 | the address of the named group, or -1 |
| Groups.TableIsFirstAdds | src/groups.c:66-110 | after any calls the table lists the first 127 calls with distinct names whose socket came up, each with its name, host name and class, and group i has address 0x80 + i |
| Groups.LookupsAgree | src/groups.c:132-150 | in every reachable table both lookups find each group again, and the next address belongs to none |
| Groups.NodeAddressIsGroupExactly | src/groups.h:6-8 | a newly allocated node address is that of a group if and only if 3..0x7F are all held and some address of a group is not |
| Groups.NodeAddressIsNoGroup | src/groups.h:6-8 | with fewer than 125 active nodes a newly allocated node address is the address of no group |
| Directory.LastTouch | src/directory-server.c:189-257 | the event found refreshes or deletes the key and no later one does |
| Directory.LeaseRefinesHistory | src/directory-server.c:189-257 | for every key, history and lease time: the entry is that of the last refresh with no later delete, its time to live reduced by the ticks since, until its life runs out |
| Directory.ListedExactly | src/directory-server.c:445-476 | a key is listed if and only if some valid refresh has no later delete and fewer ticks since than dirttl; for dirttl 0 none, for a negative one fewer than 2^32 + dirttl |
| Directory.EntryOfLastRefresh | src/directory-server.c:239-256 | what is listed is the JSON of the last refresh, with dirttl less the ticks since left of its life, 0 for dirttl 0, and 2^32 + dirttl less the ticks for a negative one |
| Directory.KeysCollideExactly | src/directory-server.c:234-237 | of two different services, refreshing the second replaces the entry of the first, and deleting it deletes that entry, if and only if characters can move from the end of one id to the front of the other type |
| Directory.ServicesCollide | src/directory-server.c:234-237 | service c with id ab and service bc with id a end up in one entry, with the JSON of the second |
| Directory.DirectoryServer.UpdateServiceCmd | src/directory-server.c:215-257 | the table is refreshed if all fields are valid, and an announcement goes out if and only if the JSON listed changes |
| Directory.DirectoryServer.DeleteServiceCmd | src/directory-server.c:189-213 | exactly the entry of id and type goes, or nothing if either is missing |
| Directory.DirectoryServer.Tick | src/directory-server.c:445-476 | for every iteration order the decrement pass and the restarting sweep terminate and leave the one-pass result |
| Tcp.NodeBuffer.Parse | src/net_tcp.c:102-151 | one byte takes the buffer, state and countdown to the specified ones and makes the specified callback |
| Tcp.NodeBuffer.ListenerRead | src/net_tcp.c:173-175 | a read is the bytes of it, one after the other |
| Tcp.OutputStream.WriteBinaryEncoded | src/net_tcp.c:43-53 | header, length modulo 256, payload |
| Tcp.OutputStream.WriteCharacterEncoded | src/net_tcp.c:55-77 | the text form, or the binary form if and only if the payload has a newline |
| Tcp.ChunkingIsInvisible | src/net_tcp.c:153-180 | however the bytes are split into reads, state and callbacks are the same |
| Tcp.ParserRefinesFrames | src/net_tcp.c:102-151 | on every stream that stays inside cmd the callbacks are those of reading it frame by frame: long text frames dropped, long binary announcements skipped, nothing after a zero-length one |
| Tcp.PayloadRoundTrip | src/net_tcp.c:43-151 | a payload written stays inside cmd and is parsed back as itself if and only if it has at most 99 bytes, or 100 with a newline among them |
| Tcp.StreamRoundTrip | src/net_tcp.c:43-179 | for every split into reads a list of payloads stays inside cmd and comes back one callback each, in order, if and only if each of them has that length |
| Tcp.UnsolicitedRoundTrip | src/net_tcp.c:43-77 | unsolicited data goes out under c or b, replies under C or B, in the same form otherwise, so it comes back under the same condition; L registers a listener |
| Tcp.BoundsKept | src/net_tcp.c:119-145 | without a zero-length announcement cmdlen is at most 100, below 100 in state 1, and in state 3 the countdown is at least 1, what followed the announcement is in cmd, and both add up to it |
| Tcp.FitsExactly | src/net_tcp.c:138-145 | a stream stays inside the command buffer if and only if no zero-length announcement has more than 100 bytes after it |
| Console.NodeBuffer.Parse | src/cmdparser.c:59-100 | one character takes buffer and state to the specified ones, runs the specified command, and closes only on exit |
| Console.NodeBuffer.ListenerRead | src/net_tcp.c:163-171 | a read is its characters one after the other, up to the one that closes the session |
| Console.ConsoleRefinesLines | src/cmdparser.c:59-100 | on every stream the commands run are the terminated lines that, after dropping leading characters below 0x20, have 1..99 characters and none below 0x20, up to and including the first exit |
| Console.ClosedByAnExit | src/cmdparser.c:83-84 | the session closes if and only if one of those commands is an exit, and otherwise all of them run |

## Assumptions

- Timely runs (`PumpSafety.IsTimely`): no wait of the writer runs out, and the bridge sends at most one status for each
  message written or being written (one that comes while its message is still being written does no harm).
  `Pump.StatusAccounting`, `PumpSafety.QueueOrder`, `PumpThreads.BridgeReadsQueue` and `PumpFaults.TimeoutAloneRaces`
  do without, and `PumpFaults.NoMutexNeededExactly` says that the absence of races cannot.
- `Serial.Feed` and `Tcp.Feed` are the automata on buffers without end. That is what the C code does on the streams
  that fit: `Serial.FramesFit` and `Tcp.FitsExactly` say which.
- Node runs (`Lifecycle.IsRun`): configured ids are distinct and nothing is active at the start; the bus has one bridge
  that talks from address 2 with one id. A run ends where the code dereferences NULL.
- Console characters are signed, as `gchar` is on x86.
- What `net_createSockets` reports is an event of the run, the table lookup of the reader thread a parameter of its
  step, and whether a command is an exit a predicate; hash iteration order is arbitrary.

## Left out

- Serial.SerialLine.Take: requires that a stored byte fits serial_buffer, which the source leaves unchecked; `Serial.FramesFit` says exactly when it does of what was written.
- Serial.SerialLine.ReadMessage: as for Take; a call with no more input returns Blocked where the source waits.
- Tcp.NodeBuffer.Parse: requires that a stored byte fits cmd, which the source leaves unchecked; `Tcp.FitsExactly` says exactly when it does. The countdown is not wrapped at the bounds of gint.
- Tcp.NodeBuffer.ListenerRead: requires, as Parse does, that the bytes read fit cmd.
- PumpThreads.PacketPump.ReaderReads: requires that what came in fits serial_buffer, as for Take, and that a message is there; the length check of `src/packet.c:35` holds of every message then. The flags of a packet too short to have any come out of uninitialised memory, an arbitrary byte for each message.
- PumpFaults.OnlyTimeoutsFail: of a bridge that does send a status too many only the data race is decided (`PumpFaults.NoMutexNeededExactly`); there is no message whose report such a status could spoil, and it may pass for the status of the next message.
- Packets.BuildCommand: requires at most 254 data bytes, because with 255 the length byte wraps to 0 and the source writes past the packet.
- BusMgt.Gateway.InPacketArrived: requires the payload its packet type reads to be there, because the source copies unchecked lengths; the length check of line 51 cannot fire then. The version text of a 'V' packet is not kept.
- NodeLife.KeepAliveExactly: the timer is an unbounded integer, so a negative nodetimeout never wraps around.
- PumpSafety.NoDataRace: covers nextnode and the four stream fields; the reader's walk over the node table while the main thread changes it is not modelled.
- PumpThreads.PacketPump.WriterSends: states the outcome of a whole turn; the order of its statements is what `Pump.WriterNext` and the race theorem are about. The same holds for WriterWaits and ReaderReads.
- Exactly-once reports across timeouts: late statuses leave stale tokens in the queue, so only the accounting is claimed.
- Names made from ids, IPv6 addresses, sockets and class ports of a node: no part in registration.
- serial_switch, busmgt_streamData, tcp_reply and listener lists: straight-line code around what is modelled.
- JSON parsing, the command scanner and its replies, XML configuration, HTTP output: foreign libraries and text.
- The directory client, ubnetd, interface and daemon plumbing, logging and memory ownership.
