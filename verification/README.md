# Verified models of five engines of dnprogs

This project models the parts of the DECnet programs that carry state, loops and
arithmetic, and proves what they promise. Each engine has its own modules; code that
changes things in place is modelled as classes and loops over arrays, and proved
against functions whose properties are then proved as lemmas.

`dafny verify dfyconfig.toml` checks everything.

## The engines

**The DAP message engine of fal2** (Data Access Protocol version 5.6.0).
`DapWire` defines how messages are framed inside a network record and how a record is
cut back into messages, and `DapHeaders` which bytes are a header at all. `DapField` holds extensible bit fields and image integers,
`DapBuffer` the builders that write them into a descriptor, `DapSend` the pool of eight
descriptors on linked lists with its blocking of messages into records, and `DapReceive`
the stateful reader with its cursors. `DapExchange` joins both ends: whatever is written,
with whatever flushes, is received exactly when every message is delimited in its record,
and usable lengths are enough for that. `DapAttributes` is the Attributes message,
`AttributeTrip` what any such message leaves behind, attribute by attribute,
`DapTransfer` what a file becomes in each record format, `DapFile` the sending loop and
`DapPut` the receiving loop, ending in a whole upload through both; `DapReceived` is what the
records of any peer are stored as.

**The routing daemon dnroute.** `Csum` is the checksum, `Advert` the advertisement
and the receiver's walk over it, `RouteChain` the linked chain of alternative routes
with its cached best and `RouteTables` a table of such chains, `StringHash` and
`HashTable` the chained hash and `Neighbours` the hash of neighbours with its records.
`Daemon` says what every event does to the tables and the kernel, on values, and proves
the kernel's agreement; `NeighbourMarks` and `AreaRoutes` prove mark and sweep and the
routes to other areas over whole runs. `Sightings` tells the direct routes from the dumps,
`Hearsay`, `HearsayAreas` and `HearsayNodes` tell every record, every entry of every chain and
the best of them from the events, `KernelRoutes` what is asked of the kernel besides, and
`Advertised` what the next daemon learns from an advertisement. `Dnroute` is the daemon itself on the linked
structures, a refinement of `Daemon`, and `DaemonRun` serves a list of inputs with it
and concludes all of these results about the structures it leaves.

**The kfifo ring.** `KFifo` is the ring as a queue, `KFifoShared` one writer and one
reader without a lock, every load and store of their indices a step of its own, and
`KFifoRestart` exactly when the reader may start the indices over meanwhile.

**File specifications.** `Filespec` holds what the converters of fal and dapfs share,
`FalFilespec` and `FalRoundTrip` are fal's, `DapfsFilespec` is that of dapfs. `TypedFilespec`
says what any specification a user types stands for, `FalVersions` what becomes of versions.

**Terminal input.** `Tty` is the line editor of dnlogin, from the bytes of the keyboard
to the terminal line it draws and the line it sends, `TtySessions` what the keys do to what is
sent, `TtyEscape` its parser of escape sequences and `TtySequences` which ones it takes,
`TtyReads` one read after another with what was typed ahead, and `TypeAhead` the
32-place ring of sethost.

`Bits` gives C's bitwise operators on non-negative integers, `Wrappers` an option type.

## Where the code differs from what one would expect

The models follow the code. Where a natural promise is false, the exact condition under
which it holds is proved.

- A message with a length field and no data, or with as much data as the field can count,
  reads as "the rest of the record". A record comes back exactly when every message but the
  last has between one byte and what its length field can count, and the last one, if it has
  a length field, no more than that or a multiple of 256 or 65536 bytes, which the field stores
  as zero. A lone message of 257 bytes behind a one-byte length does not come back
  (`DapWire.RecordRoundTrip`).
- Image integers are read through a 32-bit `int`; they come back exactly below 2^31
  (`DapField.IntRoundTrip`). Extensible fields are read the same way, for at most four bytes
  or a fifth below 8 (`DapField.ExIntegerExact`), while the comment in the source expects six.
- The room for file data is the negotiated buffer size less 13, in 16 bits. A peer that asks
  for fewer than 13 bytes makes it wrap around and overrun the descriptor (`DapFile.DataFits`).
  With a room of one byte for variable records and of three for stream files every line read
  succeeds without taking a byte, and the sending loop sends empty records for ever; with less
  it reports the end of the file at once (`DapTransfer.LoopOutcome`).
- The checksum's 32-bit sum is safe up to 65536 words; with 65537 words it overflows for one
  single input, all ones (`Csum.NoOverflow`).
- The number of nodes per packet is cut to 16 bits before it is capped, so an interface with
  an MTU of 131104 makes the sending loop spin just as one with an MTU of 100 does
  (`Advert.Progress`, `Advert.LoopEnds`), while one of 30 or less sends packets of up to 524
  bytes (`Advert.PacketsFit`).
- Route entries are sent with ten bits of cost and the hops above, and read with nine bits of
  cost and the hops above (`Advert.EntryReadBack`).
- When a level 2 router goes down the daemon asks the kernel for a route to that router
  instead of to its area. So the routes to other areas agree with the kernel only as long as
  no sweep hits the router in use (`AreaRoutes.AreasAgree`); at such a sweep the agreement is
  lost for the rest of the sweep (`AreaRoutes.DumpAgreesExactly`), and three events suffice to
  get there (`AreaRoutes.LosingTheOnlyRouter`).
- An address that moves to a loopback interface keeps its direct route through the interface
  before; that is the one way in which direct routes differ from what the dumps showed
  (`Sightings.DirectExactly`).
- When the router in use for an area goes down, the kernel gets a route to that router by way
  of the next best one (`KernelRoutes.LostRouterNamed`).
- After a dump that failed half-way the marks of the neighbours seen so far stay set, and the
  next sweep spares them (`NeighbourMarks.DeletedIffAbsent`, `NeighbourMarks.FailedDumpSpares`).
- `kfifo_alloc` announces that it rounds the size up to a power of two and does not; no other
  size works (`KFifo.QueueOnlyForPowersOfTwo`). `kfifo_get` resets both indices without a lock.
  Even when both become zero in one step, that is harmless exactly when they are zero anyway,
  or the ring is still empty and what a put has loaded and copied so far leads its bytes to
  the start of the buffer, or the put is about to store an index that is right all the same
  (`KFifoRestart.RestartExact`); from every state in which the reader has seen the ring empty
  the writer can get to one where it does harm (`KFifoRestart.HarmAhead`).
- In dapfs the test for a dot in the file name has a misplaced parenthesis: files practically
  always get a dot of their own, which makes names that end in a dot survive below a directory.
- In fal a volume and a name run together when there is no directory between them
  (`TypedFilespec.TypedInFal`), and a name with a version comes back without it
  (`FalVersions.VersionLost`).
- Of the record size in the Attributes message the low byte is kept, and of an integer what is
  below 2^31 (`AttributeTrip.AttributesKept`).
- The escape parser's rules fall through from one to the next: a digit behind intermediate
  bytes does not end a sequence but takes one more character (`TtySequences.EndsExactly`).
- The default terminators of dnlogin are said to spare control-X (24); the bit cleared is that
  of 29 (`Tty.DefaultTerminators`). So control-X ends a read (`TtySessions.ControlSent`), and kills
  the line only under a mask that spares it (`TtySessions.LineKilled`).
- Bytes typed ahead do in the next read what they would do when typed later, as long as there
  is room for all of them behind the prefilled text (`TtyReads.TypedAheadIsTyped`); without
  that room a byte can be lost and another one come twice (`TtyReads.TypedAheadLost`).
- An escape sequence that a control character breaks off leaves dnlogin's parser in the middle.
  An arrow key moves the cursor exactly when the parser starts in one of two of its six states
  (`Tty.ArrowKey`); otherwise it is sent to the host or, by a byte left in the buffer, taken
  for complete and its letter typed (`TtyReads.ArrowTypesLetter`).
- Control-X and the host's clear request empty sethost's typeahead ring but leave the reported
  count as it was (`TypeAhead.Ring.Cancel`).

## Model

| member | source | states |
|---|---|---|
| DapWire.RecordRoundTrip | dnprogs/fal2/dap.c:393-461 | messages encoded back to back in a record are parsed back to exactly those messages if all are delimited; otherwise a parsed message differs from the one sent |
| DapWire.WireRoundTrip | dnprogs/fal2/dap.c:378-461 | records that carry groups of messages parse to all messages in order if and only if every group is separable |
| DapHeaders.HeaderTaken | dnprogs/fal2/dap.c:411-454 | a header is read exactly when the bytes spell it: type, a flags byte of which five bits count, and the parts these announce, whole; or a lone type byte; everything else is malformed |
| DapField.ExEncodeMember | dnprogs/fal2/dap.c:576-617 | an encoded bit set is a well-formed field and reading any bit of it is membership in the set |
| DapField.ExSizeOfField | dnprogs/fal2/dap.c:232-248 | measuring a field followed by anything consumes exactly the field |
| DapField.ExTruncateMember | dnprogs/fal2/dap.c:273-287 | copying a field into n bytes keeps membership below 7n and drops the rest |
| DapField.IntRoundTrip | dnprogs/fal2/dap.c:307-318 | an image integer written in the four or five bytes the source uses reads back if and only if it is below 2^31 |
| DapField.LeBytesSize | dnprogs/fal2/dap.c:639-662 | the bytes of an integer number at most n exactly when it is below 256^n, so the encoding is minimal and falls to zero exactly when it does not fit |
| DapBuffer.BufDescr.ExSetBit | dnprogs/fal2/dap.c:597-617 | setting a bit in the field under construction adds exactly that bit to the set it encodes, extending the field when needed |
| DapBuffer.BufDescr.ExDone | dnprogs/fal2/dap.c:585-592 | the finished bytes are the encoding of the set of bits |
| DapBuffer.BufDescr.Int2I | dnprogs/fal2/dap.c:639-662 | appends the minimal image of an integer |
| DapSend.Dap.constructor | dnprogs/fal2/dap.c:959-977 | eight distinct descriptors with storage of their own, all free |
| DapSend.Dap.AllocBuf | dnprogs/fal2/dap.c:689-705 | whenever callers hold at most seven, a descriptor comes out that nobody held, nothing written is lost, and no other descriptor is touched |
| DapSend.Dap.ReleaseBuf | dnprogs/fal2/dap.c:710-715 | the descriptor goes back to the free list and everything else stays |
| DapSend.Dap.FlushBuffers | dnprogs/fal2/dap.c:720-744 | the pending messages leave as one record in write order, and their descriptors are free again |
| DapSend.Dap.Write | dnprogs/fal2/dap.c:749-802 | the message joins all messages ever written, at the end; which records leave and which messages stay pending: the pending ones leave first exactly when the message does not fit behind them, and the message leaves with all then pending exactly when it carries no length or no descriptor is free; no record on the wire exceeds the negotiated buffer size unless it carries one single message (part of `Valid`) |
| DapReceive.DapReader.NextMessage | dnprogs/fal2/dap.c:393-461 | the next message of all undelivered ones, header and data, across record boundaries; the rest stays undelivered; -1 exactly when the header is malformed |
| DapReceive.DapReader.ExGetBit | dnprogs/fal2/dap.c:252-268 | the loop over extension bytes reads membership |
| DapReceive.DapReader.ExCopy | dnprogs/fal2/dap.c:273-287 | the copying loop yields the truncated field |
| DapReceive.DapReader.I2Int | dnprogs/fal2/dap.c:307-318 | the shifting loop yields the integer, and nothing where C leaves the shift undefined |
| DapField.ExIntegerExact | dnprogs/fal2/dap.c:337-358 | an extensible field reads as the integer of its members exactly when it has at most four bytes, or five with the last below 8 |
| DapReceive.DapReader.Ex2Int | dnprogs/fal2/dap.c:337-358 | the shifting loop over extension bytes yields that integer |
| DapExchange.WireDelivers | dnprogs/fal2/dap.c:720-859 | the records of any sender parse to exactly what it wrote if and only if each is separable; usable lengths suffice |
| DapExchange.Exchange | dnprogs/fal2/dap.c:378-802 | when every message that carries a length has data, and no more than the length can count, everything ever written arrives in order, through pool, flushes, records and the reader |
| DapAttributes.AttributesRoundTrip | dnprogs/fal2/fal.c:229-409 | the Attributes message of an open file is accepted, consumed exactly and restores its fields; the allocation, the end block and the length of the file computed from the received end block exactly below 2^31 |
| DapAttributes.ParsedShapes | dnprogs/fal2/fal.c:229-409 | every field the menu-driven parser accepts has the shape of its kind |
| DapAttributes.SendOpened | dnprogs/fal2/file.c:104-147 | the message built for an opened file is the one the round trip is about |
| DapAttributes.Fal.ProcessAttributesMessage | dnprogs/fal2/fal.c:229-409 | the parser over the reader's cursors, then the copying and shifting loops over the fields in the input buffer, update the remote's attributes as specified, which `AttributeTrip.AttributesKept` spells out attribute by attribute; nothing changes when it fails or the data type is rejected |
| AttributeTrip.AttributesKept | dnprogs/fal2/fal.c:229-409 | any Attributes message, whatever its menu announces and whatever follows it, is taken to its end; each attribute announced is then as it was sent, bit by bit where it is a set, and no other has changed; with an unsupported data type none changes |
| AttributeTrip.AcceptedOnly | dnprogs/fal2/fal.c:229-339 | only messages of that form are accepted |
| AttributeTrip.TypesTaken | dnprogs/fal2/fal.c:331-345 | of all data type fields of up to two bytes, however padded, those with nothing but ASCII or image, and not both, are supported |
| DapTransfer.StreamIdentity | dnprogs/fal2/file.c:296-321 | a stream file arrives unchanged if and only if it has no NUL, for any line lengths, CR before LF and a missing last newline |
| DapTransfer.PlainIdentity | dnprogs/fal2/file.c:271-295 | a variable-length file without implied line ends arrives unchanged if and only if it has no NUL |
| DapTransfer.ImpliedIdentity | dnprogs/fal2/file.c:271-295 | with implied line ends also every line must be whole and short enough |
| DapTransfer.FixedRecovers | dnprogs/fal2/file.c:322-333 | in fixed records the file arrives padded with zeros to 512, and the received end of file recovers it exactly when the end block is below 2^31 |
| DapFile.GetFileData | dnprogs/fal2/file.c:259-347 | for every buffer size with which it stays inside the descriptor and ends the sending loop writes one Data message per record of the file, in order, or with too little room none, and then the end-of-file status |
| DapTransfer.LoopOutcome | dnprogs/fal2/file.c:264-347 | for every format, file and data size: the sending loop ends and has sent the whole file, or with too little room nothing; except that with room for the NUL alone it sends empty records for ever |
| DapTransfer.EnoughExact | dnprogs/fal2/file.c:275-327 | every turn carries something of every file that is not empty exactly for data sizes from 2, 4 or 1 on by format |
| DapFile.DataFits | dnprogs/fal2/file.c:261 | of the negotiated sizes, exactly those below 13 overrun the descriptor, and by format exactly which of the others make the loop get on, end at once or never end |
| DapPut.PutFileData | dnprogs/fal2/file.c:349-421 | the receiving loop stores what the messages contain up to the end of access, a Data message without a record number or a malformed header, in whatever records they come |
| DapPut.TransferIdentity | dnprogs/fal2/file.c:259-421 | what arrives equals the file exactly under the condition of its format |
| DapPut.Upload | dnprogs/fal2/file.c:259-421 | a file through chunks, buffers, records, the reader and the receiving loop ends up as specified |
| DapReceived.FormatTaken | dnprogs/fal2/fal.c:229-409 | the record format and the implied line ends that any peer announces are those in which its records are taken |
| DapReceived.TextStored | dnprogs/fal2/file.c:349-421 | a text from any peer is stored line by line, each with a line feed: stream records whether they end in CR LF, LF CR or LF, variable records with implied line ends |
| DapReceived.StaysOpenExactly | dnprogs/fal2/fal.c:485-517 | the file stays open exactly after an end of stream, alone or with well-formed options that not just a single byte follows |
| Csum.RouteCsum | dnprogs/dnroute/csum.c:14-27 | the loop with its 32-bit sum and two folds computes the checksum of the words |
| Csum.ClosedForm | dnprogs/dnroute/csum.c:16-26 | the checksum is the sum modulo 65535 plus one, never zero, exactly as long as 32 bits do not overflow |
| Csum.NoOverflow | dnprogs/dnroute/csum.c:16-22 | up to 65537 words overflow only for 65537 words of all ones |
| Csum.OrderIrrelevant | dnprogs/dnroute/csum.c:19-26 | a permutation of the words has the same checksum |
| Csum.OneWordDamaged | dnprogs/dnroute/csum.c:14-27 | replacing a word changes the checksum unless zero and all ones were exchanged |
| Advert.SendRoutingMessage | dnprogs/dnroute/send_route.c:56-128 | the packet built in the buffer carries the header, the entries of the range and a checksum that passes |
| Advert.Progress | dnprogs/dnroute/send_route.c:160-165 | packets make progress exactly for the stated sizes; from an MTU of 32 on a full packet fits with room to spare, up to 30 it holds 256 nodes |
| Advert.PacketsFit | dnprogs/dnroute/send_route.c:160-175 | every packet fits the interface if and only if the MTU is at least 32 or the whole table fits in one packet |
| Advert.LoopEnds | dnprogs/dnroute/send_route.c:167-175 | the splitting loop ends if and only if packets make progress or nothing is to be sent |
| Advert.SendRouteMsg | dnprogs/dnroute/send_route.c:130-183 | the packets of an interface carry consecutive chunks of the range |
| Advert.ChunksTile | dnprogs/dnroute/send_route.c:167-175 | the chunks' rows put together are the rows of the range, each once |
| Advert.BufferHeard | dnprogs/dnroute/get_neigh.c:792-857 | for a packet sent and put into the receive buffer, whatever stands behind it there, the checksum test passes and the segment walk sees exactly the rows sent and stops at the checksum |
| Advert.AdvertisementHeard | dnprogs/dnroute/send_route.c:130-183 | a whole advertisement fits the interface and the packet buffer, passes every test, and tells the receiver about each id once in order |
| Advert.EntryReadBack | dnprogs/dnroute/send_route.c:85-94 | cost survives exactly below 512, the whole entry exactly with hops of zero, other hops come out doubled, and a cost ending in all ones reads as unreachable |
| Advertised.PacketReceived | dnprogs/dnroute/send_route.c:54-128 | a packet of an advertisement is received as the message of its sender's address and level with the rows of its part of the table; level 1 from other areas is ignored |
| Advertised.HelloReceived | dnprogs/dnroute/get_neigh.c:944-962 | address, level and priority of a hello, from its bytes |
| Advertised.PacketTaken | dnprogs/dnroute/get_neigh.c:774-963 | routes are taken exactly with the right checksum, level 1 routes also only from our own area, hellos always, and nothing else |
| Advertised.DamageIgnored | dnprogs/dnroute/get_neigh.c:792-803 | a packet with any one byte of its routes damaged is ignored |
| Advertised.NodesLearned | dnprogs/dnroute/send_route.c:130-183 | after all packets of a level 1 advertisement the next daemon has a route through the sender to exactly the nodes that got across, with the cost and hops that arrive, and nothing else has changed |
| Advertised.AreasLearned | dnprogs/dnroute/send_route.c:130-183 | the same for areas |
| RouteChain.Cheapest | dnprogs/dnroute/get_neigh.c:484-500 | the search returns the first entry that is minimal by cost and then maximal by priority among the usable, and none exactly when none is usable |
| RouteChain.RouteInfo.FindCheapest | dnprogs/dnroute/get_neigh.c:486-500 | the walk along the linked chain finds that entry |
| RouteChain.RouteInfo.AddRouteInfo | dnprogs/dnroute/get_neigh.c:523-564 | the chain stays a list with the router's entry updated or appended, the head becomes the best entry, and the kernel is asked accordingly |
| RouteChain.RouteInfo.InvalidateRoute | dnprogs/dnroute/get_neigh.c:583-595 | the router's entries become invalid, the head the best of the rest, and the request names the router |
| RouteChain.ChainRemembers | dnprogs/dnroute/get_neigh.c:523-564 | after any history the chain has one entry per router in first-heard order, each with the latest news about it |
| RouteChain.HeadIsBest | dnprogs/dnroute/get_neigh.c:484-521 | after any history the head copies the best entry and is invalid exactly when there is none |
| HashTable.Table.constructor | dnprogs/dnroute/hash.c:97-125 | an empty map over a number of slots that is a power of two and at least the hint |
| HashTable.Table.Lookup | dnprogs/dnroute/hash.c:159-165 | lookup agrees with the finite map |
| HashTable.Table.Insert | dnprogs/dnroute/hash.c:167-187 | insert is map update; every node stays in the slot of its key, the node count stays the size, and a new key comes last of its slot in the order of iteration |
| HashTable.Table.Remove | dnprogs/dnroute/hash.c:189-200 | remove takes the key out of the map and leaves all other nodes linked |
| HashTable.Table.Iterate | dnprogs/dnroute/hash.c:249-270 | iteration terminates and visits every key exactly once |
| HashTable.EachOnce | dnprogs/dnroute/hash.c:249-270 | the slots' lists in order hold every registered key exactly once |
| StringHash.HashOf | dnprogs/dnroute/hash.c:79-95 | the loop over the key computes the hash the table is given |
| StringHash.TwoByteHash | dnprogs/dnroute/hash.c:79-95 | on two-byte keys the hash neither overflows nor feeds its high bits back |
| RouteTables.RouteTable.Add | dnprogs/dnroute/get_neigh.c:523-564 | in a table of chains one destination hears of a route and all others stay as they are |
| RouteTables.RouteTable.Invalidate | dnprogs/dnroute/get_neigh.c:583-595 | one destination loses a router and all others stay as they are |
| Neighbours.NodeHash.Insert | dnprogs/dnroute/get_neigh.c:630-640 | the records found by address form a map without sharing, and the order of iteration gets the address where its slot ends |
| Neighbours.NodeHash.Next | dnprogs/dnroute/hash.c:265-270 | the iteration goes from each node to the next of the order |
| Daemon.KernelAgrees | dnprogs/dnroute/get_neigh.c:448-857 | after any run of events the kernel's indirect route to an own-area node is exactly the router of its head, and absent when that is zero |
| Daemon.AcceptedCost | dnprogs/dnroute/get_neigh.c:826-853 | an accepted cost never reaches the value that hides a route |
| Sightings.DirectRoutes | dnprogs/dnroute/get_neigh.c:616-744 | over any run: the kernel has a direct route to an address that no dump showed on a loopback interface exactly when it is in the hash and not deleted, through the interface it was last seen on |
| Sightings.DirectExactly | dnprogs/dnroute/get_neigh.c:616-744 | for any address the direct route is the one the dumps show, if there is one, exactly unless the address moved to a loopback interface |
| Hearsay.RecordsTold | dnprogs/dnroute/get_neigh.c:599-772 | over any run: who is in the hash, and the interface, priority, level and marks of each, told from the events |
| HearsayAreas.AreaRoutesTold | dnprogs/dnroute/get_neigh.c:448-927 | over any run: the chain of an area has for each router the route last told of, and the head is one of least cost and of highest priority among these, or there is none |
| HearsayAreas.RouterAnnounces | dnprogs/dnroute/get_neigh.c:905-925 | after a level 2 message from a router in the hash its route to each area announced has the nine bits of cost announced and the cost of the interface the router is on, and the six bits of hops, at least one |
| HearsayNodes.NodeRoutesTold | dnprogs/dnroute/get_neigh.c:448-858 | over any run: the same for the nodes of our area, where a node once seen as a neighbour is reached directly, at the cost of its interface, until a router's message about it is heard while it is out of sight |
| KernelRoutes.ManualUntouched | dnprogs/dnroute/get_neigh.c:448-482 | over any run the kernel gets no route to an area under manual control, nor to our own |
| KernelRoutes.OwnAreaStays | dnprogs/dnroute/get_neigh.c:566-580 | over any run a level 2 router has its own area at no cost, whatever others announce |
| NeighbourMarks.MarkAndSweep | dnprogs/dnroute/get_neigh.c:616-744 | after a complete dump no entry is marked, and an entry is deleted exactly when its address was neither in the dump nor still marked |
| NeighbourMarks.DeletedIffAbsent | dnprogs/dnroute/get_neigh.c:717-744 | over any run: the hash holds everybody ever seen, and after a complete dump deleted means absent from it and from every failed dump since the complete one before |
| NeighbourMarks.FailedDumpSpares | dnprogs/dnroute/get_neigh.c:701-744 | a run from the start: a neighbour seen in a dump that failed and gone in the complete one after it is not deleted, and is by the one after that |
| AreaRoutes.AreasAgree | dnprogs/dnroute/get_neigh.c:448-927 | after any run whose sweeps spare the routers in use the kernel's routes to other areas are exactly those the table names |
| AreaRoutes.LostRouterDisagrees | dnprogs/dnroute/get_neigh.c:583-595 | a sweep of an area's router keeps the agreement if and only if it is not the router in use or has the node number zero |
| KernelRoutes.LostRouterNamed | dnprogs/dnroute/get_neigh.c:484-595 | when the router in use goes down, exactly the kernel's route to that router changes: to the next best one, or the route through itself goes |
| AreaRoutes.DumpAgreesExactly | dnprogs/dnroute/get_neigh.c:616-744 | after such a run, a complete dump leaves the kernel's route to an area in agreement if and only if its sweep spares the routers in use there, when none of them has the node number zero |
| AreaRoutes.LosingTheOnlyRouter | dnprogs/dnroute/get_neigh.c:583-595 | a run from the start after which the kernel keeps a route through a router that is gone |
| Dnroute.Dnroute.GotNeighbour | dnprogs/dnroute/get_neigh.c:599-689 | looking up, inserting and changing records in place and extending chains refines the event on maps, which `Sightings` and `Hearsay` tell from the dumps alone; no other destination or record is touched |
| Dnroute.Dnroute.GetNeighbours | dnprogs/dnroute/get_neigh.c:692-744 | the dump and the sweep, which walks the hash node by node, refine the dump event |
| Dnroute.Dnroute.ProcessLevel1 | dnprogs/dnroute/get_neigh.c:774-858 | area check, checksum loop and the nested loops over segments and entries, with the early stop, also past the end of the packet into the rest of the receive buffer; damaged messages change nothing |
| Dnroute.Dnroute.ProcessLevel2 | dnprogs/dnroute/get_neigh.c:860-927 | the same for areas; what the event leaves behind, costs and hops included, is `HearsayAreas.RouterAnnounces` |
| Dnroute.Dnroute.ProcessRoutingMessage | dnprogs/dnroute/get_neigh.c:929-963 | any packet of any length has the effect of the message it stands for, or none |
| DaemonRun.Serve | dnprogs/dnroute/get_neigh.c:448-963 | the daemon on its linked structures, for any inputs: at the end own-area routes agree with the kernel, area routes too unless a sweep hit a router in use, marks and entries tell which dumps had them, direct routes are those of the dumps but for moves to loopback, and the chains and heads of all nodes and areas hold the routes told of and the best of them |
| DaemonRun.SlotOfAddress | dnprogs/dnroute/hash.c:79-150 | with the string hash an address is in the slot of sixteen times the number of its low byte plus that of its high byte |
| KFifo.KFifo.Put | dnprogs/dapfs/kfifo.c:126-145 | appends as many bytes as fit, at any index including across the 32-bit wrap |
| KFifo.KFifo.GetBytes | dnprogs/dapfs/kfifo.c:157-174 | removes as many bytes as asked for and there, in order |
| KFifo.KFifo.Get | dnprogs/dapfs/kfifo.h:80-95 | the reset of both indices leaves the queue as it is |
| KFifo.QueueOnlyForPowersOfTwo | dnprogs/dapfs/kfifo.c:76-101 | bytes put together come out in order one by one if and only if the size is a power of two |
| KFifoShared.LockFree | dnprogs/dapfs/kfifo.c:123-174 | under any interleaving of the loads, copies and stores of one writer and one reader, with harmless restarts of the indices among them (both cleared in one step), the slots in use never meet and what was delivered is a prefix of what was accepted |
| KFifoRestart.RestartExact | dnprogs/dapfs/kfifo.h:80-95 | in every reachable state, with a put stopped after any of its loads, the reader may clear both indices in one step if and only if that is harmless: nothing changes, or the ring is empty and the remaining copies leave the put's bytes at the start of the buffer, or the put stores the right index again; otherwise some continuation delivers a wrong byte |
| KFifoRestart.RestartWhateverTheBytes | dnprogs/dapfs/kfifo.h:87-92 | with the ring empty that holds whatever the bytes are exactly when the index is zero already, or the put has not loaded more than its room from an index within the size, not more than how much goes before the end of the buffer with all of it going there, or the first cell as its destination |
| KFifoRestart.HarmAhead | dnprogs/dapfs/kfifo.h:87-92 | from every reachable state in which the reader has seen the indices equal, some run leads on to a state in which it still is about to clear them and that does harm |
| KFifoRestart.StartOverRaces | dnprogs/dapfs/kfifo.c:131-135 | from a fresh ring a harmful state is reached in which the put has taken its destination and copied nothing |
| Filespec.BackInk | dnprogs/fal/task.cc:418-466 | a directory text comes back unchanged exactly when it has no dots and no root markers, and otherwise loses characters |
| Filespec.CopyWhole | dnprogs/fal/task.cc:418-466 | the directory loop turns a bracketed directory into its names behind what was written, or alone when it starts relative |
| Filespec.MakeUnixFilespec | dnprogs/fal/task.cc:374-495 | the converter with its loop over the directory yields the path of the parts it parsed, which is what `TypedFilespec.TypedInFal` says it stands for |
| TypedFilespec.TypedInFal | dnprogs/fal/task.cc:330-495 | any typed specification, with or without volume, directories, adjacent ones, empty brackets, roots and version, becomes the place its directories lead to one after the other and the name |
| TypedFilespec.TypedPath | dnprogs/fal/task.cc:330-495 | with a directory, up to repeated slashes that is the absolute or relative path of the names the directories list, from where the volume or the last relative directory starts |
| TypedFilespec.EmptyBrackets | dnprogs/fal/task.cc:420-427 | empty brackets before a name do not matter |
| TypedFilespec.TypedInDapfs | dnprogs/dapfs/filenames.c:120-276 | the same for dapfs, where they do |
| FalFilespec.MakeVmsFilespec | dnprogs/fal/task.cc:212-327 | the converter with its loops over slashes and directories yields the specification of the three cases |
| FalFilespec.VmsIs | dnprogs/fal/task.cc:212-327 | what goes out is volume, bracketed directories and the typed name, for every normalised path |
| FalFilespec.VersionStays | dnprogs/fal/task.cc:212-327 | a name that has a version goes out with that one |
| FalVersions.VersionLost | dnprogs/fal/task.cc:212-495 | and comes back as the name without it |
| FalRoundTrip.RoundTrip | dnprogs/fal/task.cc:212-495 | a path comes back unchanged but for repeated slashes if and only if it is faithful, a condition on the path and on which of its prefixes are directories |
| FalRoundTrip.EveryPath | dnprogs/fal/task.cc:218-225 | every normalised absolute path has one of the shapes the round trip is about |
| DapfsFilespec.MakeVmsFilespec | dnprogs/dapfs/filenames.c:58-118 | the one-pass converter yields the bracketed form |
| DapfsFilespec.RoundTrip | dnprogs/dapfs/filenames.c:58-276 | a path comes back without its leading slash if and only if it is faithful |
| Tty.Editor.TypeChar | dnprogs/dnlogin/tty.c:658-684 | a character inserts or overwrites at the cursor, a full line is sent, and the terminal line stays equal to the buffer |
| Tty.Editor.DeleteChar | dnprogs/dnlogin/tty.c:637-652 | DEL removes the character before the cursor and the terminal line follows |
| Tty.Editor.Control | dnprogs/dnlogin/tty.c:605-636 | kill, start and end of line and the mode key act on the two halves of the line, and the terminal line follows |
| Tty.Editor.GoRight | dnprogs/dnlogin/tty.c:569-578 | the arrow moves one character across the cursor if there is one |
| Tty.Editor.ProcessTerminal | dnprogs/dnlogin/tty.c:483-686 | what you see is what is sent: for any bytes, with terminators, editing keys, escape sequences and full lines as they come, the terminal shows the line until it goes out, and what goes out is what it showed |
| Tty.Editor.TakeByte | dnprogs/dnlogin/tty.c:503-685 | one byte: read-ahead, escape sequence, terminator, control key or character; which byte is which key is pinned by the sessions of `TtySessions` |
| Tty.Editor.ParseEscape | dnprogs/dnlogin/tty.c:78-155 | the rules of the escape parser with their fall through, state and result |
| Tty.ArrowKey | dnprogs/dnlogin/tty.c:544-604 | an arrow key moves the cursor if and only if the escape parser starts in one of the two states in which the bracket begins a sequence |
| TtySequences.EndsExactly | dnprogs/dnlogin/tty.c:78-148 | of printable characters behind an escape the parser takes exactly the sequences listed for complete |
| TtySequences.SequenceSent | dnprogs/dnlogin/tty.c:544-604 | a complete sequence that is not an arrow goes out behind the text, and the line stays |
| TtySequences.SequenceKept | dnprogs/dnlogin/tty.c:544-604 | before it is complete it is kept and nothing else happens |
| TtyReads.ArrowTypesLetter | dnprogs/dnlogin/tty.c:562-604 | two reads after which the right arrow has typed its letter |
| Tty.SentFits | dnprogs/dnlogin/tty.c:549-684 | a line sent because it is full has exactly the length of the limit, one sent by a terminator at most that |
| Tty.KeptAhead | dnprogs/dnlogin/tty.c:535-543 | what comes after the line was sent waits in order, up to 128 bytes |
| TtyReads.StartRead | dnprogs/dnlogin/tty.c:336-376 | the next read starts with the prefilled text, the mode and suppressed output of the one before, and takes the bytes typed ahead from the buffer that it fills again meanwhile |
| TtyReads.TypedAheadIsTyped | dnprogs/dnlogin/tty.c:336-376 | at most 128 bytes typed after a line was sent, with room for them behind the prefilled text, do in the next read what they do when typed after it started |
| TtyReads.TypedAheadLost | dnprogs/dnlogin/tty.c:371-374 | without that room a byte is lost and another one comes twice |
| Tty.Editor.Terminate | dnprogs/dnlogin/tty.c:549-558 | the whole text goes out with the terminator at its end, wherever the cursor was, and the terminal showed that text |
| Tty.DeleteUndoes | dnprogs/dnlogin/tty.c:637-684 | DEL undoes a character exactly when it did not overwrite another |
| Tty.RedrawShows | dnprogs/dnlogin/tty.c:471-480 | redrawing behind a non-empty prompt shows prompt, text and cursor |
| Tty.DefaultTerminators | dnprogs/dnlogin/tty.c:307-320 | exactly which characters end a read by default |
| TtySessions.DefaultEdits | dnprogs/dnlogin/tty.c:307-320 | the default mask ends reads with return and leaves characters and editing keys alone, but control-X ends a read |
| TtySessions.TextSent | dnprogs/dnlogin/tty.c:503-558 | typed text and return, or line feed, sends the text and a return |
| TtySessions.ControlSent | dnprogs/dnlogin/tty.c:517-558 | control-C ends a read as 25 and control-X as 24, where these end reads |
| TtySessions.StartOfLine | dnprogs/dnlogin/tty.c:621-624 | text, control-H, a character and return sends the character before the text, or instead of its first one |
| TtySessions.EndOfLine | dnprogs/dnlogin/tty.c:625-628 | text, control-H, control-E, a character and return sends the text and the character |
| TtySessions.LineKilled | dnprogs/dnlogin/tty.c:614-620 | text, control-U (or control-X), a character and return sends the character alone |
| TtySessions.LastDeleted | dnprogs/dnlogin/tty.c:643-655 | text, DEL and return sends the text without its last character |
| TtySessions.ModeToggled | dnprogs/dnlogin/tty.c:629-631 | control-A decides between inserting and overwriting |
| TtySessions.Ignored | dnprogs/dnlogin/tty.c:605-656 | control keys without a meaning leave the text alone |
| TtySessions.OutputSuppressed | dnprogs/dnlogin/tty.c:640-642 | control-O leaves the text alone and suppresses output |
| TtySessions.LeftArrowTyped | dnprogs/dnlogin/tty.c:569-593 | behind a left arrow a character is typed before the last one, or instead of it |
| TtySessions.RightArrowTyped | dnprogs/dnlogin/tty.c:569-593 | left and right arrow together leave the cursor where it was |
| TypeAhead.Ring.Insert | dnprogs/apps/sethost.c:393-416 | fails exactly when 32 bytes are queued and appends otherwise |
| TypeAhead.Ring.Read | dnprogs/apps/sethost.c:379-391 | takes the oldest byte and reports 255 when there is none |
| TypeAhead.Ring.Cancel | dnprogs/apps/sethost.c:737-738 | empties the ring; the count stays right exactly when it was empty before |
| TypeAhead.Use | dnprogs/apps/sethost.c:379-417 | under any mixture of operations the ring is a 32-place queue and the count is right |
| TypeAhead.Conserved | dnprogs/apps/sethost.c:379-417 | what was taken and what is left is what was there and what was accepted, in order |

## Left out

- DapReceive.DapReader.NextMessage: behind a malformed header, and for a length beyond the record, nothing is promised about what follows; `DAPcheckRead` and the sockets behind `DAPread` are not modelled.
- DapSend.Dap.FlushBuffers: `writev` is taken to send the whole record; partial writes and errors are not modelled.
- DapSend.Dap.constructor: the eight buffers are separate arrays rather than slices of one, so an overrun into a neighbour is excluded by proof and not by layout.
- DapPut.PutFileData: a connection that closes without an end of access, upon which the source goes round its loop on stale variables, and a message that claims more data than its record holds are excluded. The CR LF patch at the end of a record is done on a copy of the record and not inside the input buffer.
- DapFile.GetFileData: the negotiated sizes with which the source overruns the descriptor or never ends are excluded; `DapFile.DataFits` says which they are. The check for messages that the peer sends meanwhile is not modelled.
- Dnroute.Dnroute.ProcessLevel1: a message that passes the checksum and whose counts lead out of the receive buffer of 2048 bytes is excluded, and so is one of a single byte, before which the source looks for the checksum. What stands in the buffer behind a packet is part of the input.
- Dnroute.Dnroute.ProcessLevel2: likewise.
- Daemon.KernelAgrees: messages come from routers with a non-zero address, which the source asserts before it calls the kernel; kernel calls are taken to succeed, and the option that suppresses them is off. An added route replaces the one to the same destination, a deleted one must match.
- HashTable.Table.Lookup: all keys of a table have one length, because the source compares only as many bytes as the key looked up has; allocation is taken to succeed.
- KFifoShared.LockFree: memory is sequentially consistent; the source has no barriers.
- KFifoRestart.RestartExact: `in = out = 0` is one step here. The source stores zero twice, and a put that runs between the two stores finds the old index beside the new one. The comparison before it is a step of its own, and `in += len` is a load and a store.
- FalFilespec.MakeVmsFilespec: the path is already resolved (`realpath`), the virtual root is empty, and the short form of the name is not modelled.
- FalRoundTrip.RoundTrip: paths are lower case and free of `: ; [ ]`; which paths are directories is a predicate that does not care about repeated slashes.
- Tty.Editor.ProcessTerminal: editing is allowed, the prompt is on one line and printable, the line does not wrap, and a read starts with room in the buffer, which the source does not check; neither does it check for escape sequences that overrun their buffer or the line's, which are excluded. Echo is on when a read starts. Nothing is said about the terminal once control-O has suppressed output or an arrow was echoed incompletely. The exit character and out-of-band characters are not modelled; bytes from 128 up index the attribute table with a negative subscript in the source.
- Tty.Editor.Terminate: the effect of echoing control characters other than return depends on the terminal.
- TypeAhead.Ring.Insert: the count message to the host is not modelled.
- Configuration negotiation, directory listing, erase, rename and protection messages of fal2: they parse and build with the routines modelled here and add only easy members.
- The metafile and automatic file types of fal, FUSE, sockets, netlink, signals and logging.
