# Verification of SUPLA device core logic

Dafny models of the parts of the SUPLA device library that keep state or carry an encoding, with
proofs of what they are for. `dafny verify dfyconfig.toml` checks everything.

What works in place in the library is a class or a method on arrays here, proved equal to a function
of the old state; the laws are proved about these functions. Network, clock, storage and application
callbacks are parameters (what was read, which allocation succeeded, which protocol layer accepts) or
traces (what was written, delivered, applied, sent).

| file | models |
|---|---|
| `Common.dfy` | little-endian numbers, copying into arrays, concatenation |
| `FrameCodec.dfy` | the frame format as a parser and a printer over byte sequences |
| `Proto.dfy` | the buffers and the packet structure of proto.c |
| `SrpcDevice.dfy` | calls and the receive loop of srpc.c in the device build |
| `SrpcQueue.dfy` | the bounded packet queue |
| `SrpcServer.dfy` | srpc_iterate of the default build, with both queues and the output buffer |
| `MultiValue.dfy` | several extended values nested in one |
| `CaptionPack.dfy` | packs of items that end with a caption of variable length |
| `ConfigExchange.dfy` | the exchange of channel configurations with the server |
| `RsaSpki.dfy` | the DER encoding of an RSA public key, against an independent DER reader |
| `ActionList.dfy` | the observer list with cascading destruction |
| `Elements.dfy` | the list of elements and the round-robin cursor |
| `Hostname.dfy` | the host name made from the device name |
| `Uptime.dfy` | seconds counted from a 32-bit millisecond counter |
| `UrlCoding.dfy` | percent encoding, decoding in place, hexadecimal text |
| `SemVer.dfy` | the version comparator |
| `Crc16.dfy` | the checksum on machine words; its laws on their bits, lowest first |

Main results:

- Any stream of bytes, valid or not, cut into any reads, gives the same packets, the same first error
  and the same remainder as in one read; the frames of sent calls give exactly these calls. This holds
  from the queue of a default build through the wire to the receive loop of a device build
  (`SrpcServer.DeliverAll`), and from a device to the application of a default build
  (`SrpcServer.DeliverBack`).
- The device build never overflows its input buffer. The default build writes nothing or one whole
  frame in each call and, while allocation succeeds, loses no accepted call.
- The packet queue refines a bounded sequence; every run conserves packets and is first in, first out.
- Every configuration exchange with a server that answers each config sent comes to rest within 24
  steps, whatever mix of failing sends, empty configs and rejections occurs.
- A pending offline change wins over the configs the server sends before it has finished, and only over
  these. The end of the server's configs gives up the pending state, before anything is sent, exactly
  when the channel uses any config (`ConfigExchange.FinishedEndsProtection`). From then on, until the
  next local change and across reconnects, a config of the server for a used type is applied
  (`ConfigExchange.OfflineChangeLostIffFinished`), be the change sent or not
  (`ConfigExchange.UnsentChangeIsOverwritten`, `ConfigExchange.SentChangeIsOverwritten`).
- The key encoder writes exactly the bytes a DER reader turns back into modulus and exponent, for
  exactly the moduli without superfluous leading zeros (sections 8.1.3, 8.3 and 10.1 of ITU-T X.690).
- What was added to a multi-value, packed into a caption pack, or percent-encoded into a buffer comes
  back unchanged.
- No node of the action list ever holds a destroyed handler or a condition in front of one. Conditions
  in front of conditions are not covered: destroying a handler leaves no way to it if and only if no
  other node reaches it through two or more conditions (`ActionList.DestroyHandlerIsDeepIff`). A run
  within the rules of a program fails this (`ActionList.NestedConditionsAreNotCovered`). Every run is
  safe that puts no condition in front of a condition, and ties no node to a condition that stands in
  front of one (`ActionList.FlatRunIsDeep`).
- A packet is reported and the sum of header and declared size does not wrap around 32 bits if and only
  if the buffer starts with a frame (`FrameCodec.FrameIffAccepted`). Which buffers pass for a packet when
  it wraps is stated exactly, too (`FrameCodec.WrappedAcceptedIff`).

## Model

| member | source | states |
|---|---|---|
| FrameCodec.ScanFrame | src/supla-common/proto.c:275-329 | a reported packet and its closing tag lie inside the buffer and the packet fits the structure; a pop removes at least five bytes |
| FrameCodec.PopPacket | src/supla-common/proto.c:304-325 | the packet structure keeps its size, and each packet shortens the buffer by its tag at least, also when the 32-bit sum wraps |
| FrameCodec.ErrorsIff | src/supla-common/proto.c:282-318 | exactly which buffers are given up for the version, which one it was, and which for anything else |
| FrameCodec.ErrorLeaves | src/supla-common/proto.c:285-325 | what each outcome leaves in the buffer and in the packet structure, byte by byte |
| FrameCodec.HeaderFields | src/supla-common/proto.h:685-694 | tag, version, ids and payload size stand at their places in the header |
| FrameCodec.FrameBytes | src/supla-common/proto.h:685-694 | every byte of a frame by its place: tag, version, ids and size with the lowest byte first, payload, tag |
| FrameCodec.ReadImageOfMessage | src/supla-common/proto.c:320-324 | a structure whose front is header and payload of a message reads as that message, whatever an earlier packet left behind it |
| FrameCodec.ResidualBound | src/supla-common/proto.c:304-310 | a buffer that waits for more is shorter than the largest frame, for all bytes |
| FrameCodec.ScanStable | src/supla-common/proto.c:275-329 | more bytes behind never change a verdict already reached |
| FrameCodec.ScanOfFrame | src/supla-common/proto.c:291-325 | the parser undoes the printer: a frame with anything behind it is a packet of exactly its length |
| FrameCodec.ScanOfFramePrefix | src/supla-common/proto.c:309-310 | on a proper prefix of a frame the parser waits |
| FrameCodec.AcceptedIsFrame | src/supla-common/proto.c:291-325 | accepted bytes are the frame of the message made of their fields |
| FrameCodec.AcceptedIffFrame | src/supla-common/proto.c:275-329 | a packet is reported if and only if the buffer starts with the frame of a message that may be sent, for sizes that do not wrap |
| FrameCodec.WrappedSizeIsNoFrame | src/supla-common/proto.c:304-307 | if header size and declared size wrap, the buffer starts with no frame |
| FrameCodec.FrameIffAccepted | src/supla-common/proto.c:275-329 | for every buffer: it starts with the frame of a message that may be sent if and only if a packet is reported and the sum does not wrap |
| FrameCodec.WrappedAcceptedIff | src/supla-common/proto.c:304-318 | a wrapping sum passes for a packet exactly when it wraps to 0, or to 6 to 9 with a tag among the ids |
| FrameCodec.WrappedSizeAccepted | src/supla-common/proto.c:304-307 | an input for which the parser reports a packet although there is no frame |
| FrameCodec.Drain | src/supla-common/srpc.c:433-463 | draining ends waiting on an incomplete frame, or with an error and an empty buffer |
| FrameCodec.PopStable | src/supla-common/proto.c:275-329 | taking a packet off the front commutes with bytes arriving at the back |
| FrameCodec.DrainSplit | src/supla-common/srpc.c:424-463 | draining two pieces one after the other is draining them together |
| FrameCodec.ReceiveStep | src/supla-common/srpc.c:424-463 | one more read goes on where the last one stopped |
| FrameCodec.ChunkingIndependence | src/supla-common/srpc.c:416-470 | however any byte stream is cut into reads, packets, first error and remainder are those of a single read |
| FrameCodec.DrainOfFrames | src/supla-common/srpc.c:433-443 | draining frames delivers their messages in order and leaves nothing |
| FrameCodec.EndToEnd | src/supla-common/srpc.c:416-470 | frames cut into any reads are delivered as exactly the messages sent, in order, without error or remainder |
| FrameCodec.FrontDecides | src/supla-common/proto.c:320-324 | without a wrapping sum the message read from the structure is decided by the bytes of the packet alone |
| FrameCodec.DrainIgnoresImage | src/supla-common/srpc.c:433-443 | then draining does not depend on what the packet structure held before |
| FrameCodec.WrappedShowsImage | src/supla-common/proto.c:304-324 | with a sum that wraps to 0 the packet handled before is seen again |
| FrameCodec.FramesDoNotWrap | src/supla-common/proto.c:304-307 | no sum wraps in a stream of frames |
| FrameCodec.FramesPrefix | src/supla-common/srpc.c:433-463 | no part of a stream of frames reads as an error |
| FrameCodec.MoreOnTheWay | src/supla-common/srpc.c:318-333 | bytes arriving keep the packets delivered and on the way those of the whole stream |
| FrameCodec.OneOnTheWay | src/supla-common/srpc.c:335-336 | so does taking out one packet, and only an error or waiting ends it |
| Proto.SprotoBuffer.Reserve | src/supla-common/proto.c:119-144 | the buffer grows to what is needed, overflows at the build's limit, and is untouched on failure |
| Proto.SprotoBuffer.Append | src/supla-common/proto.c:114-152 | success appends exactly the bytes; overflow exactly from the limit of the build on, and failure exactly when memory is needed and refused, change nothing |
| Proto.SprotoBuffer.RemoveFront | src/supla-common/proto.c:249-256 | the first n bytes go, the others stay in order, the size never grows beyond the minimum |
| Proto.SprotoBuffer.GiveBack | src/supla-common/proto.c:258-272 | giving memory back keeps the contents |
| Proto.Sproto.InAppend | src/supla-common/proto.c:154-159 | received bytes go behind those buffered, or nothing changes |
| Proto.Sproto.ShrinkIn | src/supla-common/proto.c:240-273 | drops at most what is there and forgets the opening tag |
| Proto.Sproto.PopInSdp | src/supla-common/proto.c:275-329 | the method on buffer, remembered tag and packet structure is FrameCodec.PopPacket |
| Proto.Sproto.PopTagged | src/supla-common/proto.c:291-326 | the same behind the check of the opening tag |
| Proto.Sproto.OutAppend | src/supla-common/proto.c:162-180 | packet and tag are appended one after the other, with each partial outcome |
| Proto.Sproto.PopOutData | src/supla-common/proto.c:182-222 | moves a prefix of the output to the caller, the rest stays |
| Proto.Sproto.SdpInit | src/supla-common/proto.c:344-356 | a fresh packet has the number behind the last id, 1 behind 2^32 - 1, and zeros elsewhere |
| Proto.IdBehind | src/supla-common/proto.c:350-352 | ids go round the numbers from 1 to 2^32 - 1 |
| Proto.IdsDiffer | src/supla-common/proto.c:350-352 | no two of 2^32 - 1 ids in a row are the same |
| Proto.IdsInTurnDiffer | src/supla-common/proto.c:350-352 | a run of calls within one round returns no id twice |
| Proto.Sproto.SetVersion | src/supla-common/proto.c:331-338 | an unsupported version becomes the newest |
| Proto.Sproto.NewPacket | src/supla-common/srpc.c:1902-1908 | the structure of exactly the call's message, if its payload fits |
| Proto.SetDataOnFreshPacket | src/supla-common/proto.c:368-379 | initialising, overriding the version and setting the payload give the structure of the message |
| Proto.PacketImageFields | src/supla-common/srpc.c:253-261 | the part of a structure that is sent is header and payload of its message |
| SrpcDevice.DeviceDrainFits | src/supla-common/proto.c:49-51 | with the sizes of the device build a read on top of 622 bytes fits the input buffer |
| SrpcDevice.Srpc.AsyncCall | src/supla-common/srpc.c:1875-1919 | an allowed call that fits leaves as one frame with the next id and returns it; id consumed and what was sent in each other case |
| SrpcDevice.Srpc.CallAll | src/supla-common/srpc.c:1875-1919 | of fewer than 2^32 calls no two return the same id, and 0 is returned exactly for the calls refused |
| SrpcDevice.Srpc.OutQueuePush | src/supla-common/srpc.c:251-275 | packet and tag leave in one write, or not at all without memory |
| SrpcDevice.Srpc.IterateDevice | src/supla-common/srpc.c:416-470 | never BUFFER_OVERFLOW; one call is Drain on the buffered bytes and the bytes read |
| SrpcDevice.Srpc.ReceiveAll | src/supla/protocol/supla_srpc.cpp:973-980 | one iteration for each read until one fails: the object delivers what FrameCodec.Receive says for the whole connection |
| SrpcDevice.Srpc.HandOverPackets | src/supla-common/srpc.c:433-463 | the loop terminates and delivers what Drain delivers |
| SrpcDevice.Srpc.HandOverPacket | src/supla-common/srpc.c:433-442 | one packet is delivered exactly when one is taken out |
| SrpcDevice.DrainedToStep | src/supla-common/srpc.c:433-443 | one delivery leaves the outcome of draining the same |
| SrpcDevice.AppendFrame | src/supla-common/srpc.c:260-264 | a further write keeps the stream the frames of the accepted calls |
| SrpcQueue.FirstMatch | src/supla-common/srpc.c:208-209 | the first packet with the id, any packet for 0 |
| SrpcQueue.FirstMatchMeaning | src/supla-common/srpc.c:208-209 | no packet in front of the one found reads as having the id, the one found does; for 0 it is the oldest |
| SrpcQueue.Queue.constructor | src/supla-common/srpc.c:83-88 | an empty queue is a valid one |
| SrpcQueue.Queue.Push | src/supla-common/srpc.c:181-202 | appends exactly when there is room and memory, or a kept structure instead; nothing else changes |
| SrpcQueue.Queue.NoSpare | src/supla-common/srpc.c:187-196 | with no structure to be kept, none is left behind the live slots |
| SrpcQueue.Queue.Allocate | src/supla-common/srpc.c:187-190 | the new structure is distinct from all others |
| SrpcQueue.Queue.Store | src/supla-common/srpc.c:194-199 | the copy goes behind the live slots, which stay as they are |
| SrpcQueue.Queue.Pop | src/supla-common/srpc.c:204-231 | hands out the oldest packet, or the first that reads as having the id, keeps the order of the others, and fails exactly when there is none |
| SrpcQueue.Queue.Remove | src/supla-common/srpc.c:212-225 | live slots stay non-null and distinct, non-null slots stay within alloc_count and that within the kept number plus item_count |
| SrpcQueue.Queue.FreeSurplus | src/supla-common/srpc.c:212-216 | frees a structure only above the kept number |
| SrpcQueue.Queue.MoveBehindLiveSlots | src/supla-common/srpc.c:218-225 | later packets move down one slot, the spare structure goes behind them, none is lost or shared |
| SrpcQueue.NonNullMoved | src/supla-common/srpc.c:218-225 | moving slots changes the number of structures only by the freed one |
| SrpcQueue.DistinctMoved | src/supla-common/srpc.c:218-225 | no structure stands in two slots afterwards |
| SrpcQueue.RunConserves | src/supla-common/srpc.c:181-231 | over every run, packets accepted are packets handed out and packets kept |
| SrpcQueue.RunIsFifo | src/supla-common/srpc.c:181-231 | over every run that pops without an id, packets leave in the order of acceptance |
| SrpcQueue.RunAll | src/supla-common/srpc.c:181-231 | the operations on the queue object, in any order and with memory, are that run |
| SrpcServer.DefaultBuildFits | src/supla-common/srpc.c:71-73 | any frame of the default build fits one write |
| SrpcServer.Server.AsyncCall | src/supla-common/srpc.c:1875-1919 | a call is accepted, under the next id, exactly when it is allowed, small enough, there is room in the queue and memory for it |
| SrpcServer.Server.CallAll | src/supla-common/srpc.c:1875-1919 | of fewer than 2^32 calls no two return the same id, and every message that waits carries one of them |
| SrpcServer.Server.Accept | src/supla-common/srpc.c:1906-1908 | the message joins those waiting exactly when there is room and memory |
| SrpcServer.Server.QueueSdp | src/supla-common/srpc.c:273 | a packet waits behind the others exactly when there is room and memory |
| SrpcServer.Server.NextQueued | src/supla-common/srpc.c:278-280 | the oldest waiting packet |
| SrpcServer.Server.QueueReceived | src/supla-common/srpc.c:246-248 | a received packet is queued exactly when there is room and memory, the other queue is untouched |
| SrpcServer.Server.ReadIn | src/supla-common/srpc.c:320-333 | closed connection and full buffer end the call |
| SrpcServer.Server.TakePacket | src/supla-common/srpc.c:335-336 | one pop, as FrameCodec.PopPacket says |
| SrpcServer.Server.TakeAndQueue | src/supla-common/srpc.c:335-379 | one packet from the buffered bytes to the queue, and when the call goes on |
| SrpcServer.Server.TakeIn | src/supla-common/srpc.c:335-379 | the same with the announcement to the application |
| SrpcServer.QueuedIsAnnounced | src/supla-common/srpc.c:350-357 | the packet queued reads as the message announced |
| SrpcServer.Server.IterateIn | src/supla-common/srpc.c:318-379 | at most one packet is queued and announced; every reason to stop |
| SrpcServer.Server.Buffer | src/supla-common/srpc.c:383-389 | the frame of the packet alone is in the output buffer |
| SrpcServer.Server.Transmit | src/supla-common/srpc.c:383-395 | the empty output buffer passes exactly one whole frame on and is empty again |
| SrpcServer.Server.TransmitNext | src/supla-common/srpc.c:383-391 | the frame is that of the call accepted first |
| SrpcServer.Server.IterateOut | src/supla-common/srpc.c:381-395 | nothing or one whole frame in one write, in the order of acceptance; the receiving side is left alone |
| SrpcServer.Server.Iterate | src/supla-common/srpc.c:309-413 | accepted calls are those sent followed by those waiting, none is dropped or split while memory lasts; on the receiving side one read and at most one packet |
| SrpcServer.Server.Take | src/supla-common/srpc.c:233-243 | the application gets the first received packet that reads as having the id, the oldest for 0, or none exactly when no packet has it |
| SrpcServer.FirstMatchHeld | src/supla-common/srpc.c:208-209 | among queued messages the packet with an id is that of the first message with the id |
| SrpcServer.StepOnTheWay | src/supla-common/srpc.c:309-379 | over one iteration the packets announced and those still buffered stay the packets of the whole stream |
| SrpcServer.Server.IterateAndTake | src/supla-common/srpc.c:309-379 | one iteration after which the application takes what was announced leaves the queue empty |
| SrpcServer.Server.ReceiveRun | src/supla-common/srpc.c:309-379 | over any run of reads the packets announced and those still buffered are the packets of all bytes taken; it ends early only with a closed connection, a full buffer or the first error, all packets before it announced |
| SrpcServer.SettleStep | src/supla-common/srpc.c:335-336 | an iteration with nothing to read announces the next buffered packet |
| SrpcServer.Server.Settle | src/supla-common/srpc.c:309-379 | with nothing more to read, every buffered packet is announced |
| SrpcServer.WireIsFrames | src/supla-common/srpc.c:391-395 | the bytes written are the frames of the calls accepted first |
| SrpcServer.ServerToDevice | src/supla-common/srpc.c:391-470 | what a default build writes, cut into any reads, a device build delivers as exactly the accepted calls |
| SrpcServer.DeliverAll | src/supla/protocol/supla_srpc.cpp:973-980 | the same for the objects: after any calls on the server that found memory, the device has delivered exactly what the server sent |
| SrpcServer.DeliverBack | src/supla-common/srpc.c:309-379 | the way back: the application of a server is told of exactly the calls a device has sent, in order, unless a read is refused |
| MultiValue.AddStores | src/supla-common/srpc.c:3757-3801 | adding extends the stored list at its end exactly while the encoding fits, through the change from single to multi; a failed add changes nothing |
| MultiValue.FitsIfPassedIff | src/supla-common/srpc.c:3775-3790 | a copy that passes the 32-bit comparison is inside the value array unless the sum wraps to a small number |
| MultiValue.SmallIsInside | src/supla-common/srpc.c:3772-3790 | it is inside for all values that fit the value array |
| MultiValue.WrapFields | src/supla-common/srpc.c:3795-3798 | wrapping makes a multi-value whose first entry is the value, of its size |
| MultiValue.WrapStores | src/supla-common/srpc.c:3785-3800 | the second value wraps the first and follows it |
| MultiValue.AppendEntryStores | src/supla-common/srpc.c:3775-3783 | a further value goes behind the stored ones |
| MultiValue.EntryAt | src/supla-common/srpc.c:3822-3838 | each stored value stands at the end of those before it |
| MultiValue.CopyInsideIff | src/supla-common/srpc.c:3826-3833 | exactly which declared sizes that pass the 32-bit comparison are copied from inside the structure |
| MultiValue.TameStaysInside | src/supla-common/srpc.c:3810-3838 | with room for a header and such sizes only, every lookup stays inside the structure, also when offsets wrap |
| MultiValue.AllInsideIff | src/supla-common/srpc.c:3810-3838 | every lookup stays inside the structure exactly when the walk comes to no entry with a cut-off header or a size that wraps the sum but not the number of bytes |
| MultiValue.OnlySizesMatter | src/supla-common/srpc.c:3814-3818 | with room for a header in the size field, only such sizes can take a lookup outside |
| MultiValue.LookupLeaves | src/supla-common/srpc.c:3814-3831 | with size field 0 and a first entry of 1019 bytes the lookup of index 1 leaves the structure |
| MultiValue.LookupLeavesAt | src/supla-common/srpc.c:3814-3831 | a structure for which this happens |
| MultiValue.FindStep | src/supla-common/srpc.c:3822-3838 | one round of the walk over an entry whose sum does not wrap |
| MultiValue.FindFrom | src/supla-common/srpc.c:3820-3838 | the walk over the entries finds each value, and nothing behind the last |
| MultiValue.GetOfStored | src/supla-common/srpc.c:3803-3847 | index i yields exactly the i-th stored value, any further index nothing |
| MultiValue.AddAllStores | src/supla-common/srpc.c:3757-3801 | over any sequence of additions, the values that found room are stored in order |
| MultiValue.AddThenGet | src/supla-common/srpc.c:3757-3847 | what was added comes back by index, and nothing else |
| MultiValue.StoredBytes | src/supla-common/proto.h:776-780 | every byte of a structure with one value and with two: types, sizes with the lowest byte first, data |
| MultiValue.ValueAdd | src/supla-common/srpc.c:3757-3801 | the method in place is that addition, with sums in 32 bits, for all sizes whose copies stay inside; its recursion goes one level deep |
| MultiValue.AppendInPlace | src/supla-common/srpc.c:3775-3783 | the branch for a multi-value appends, or changes nothing |
| MultiValue.WrapInPlace | src/supla-common/srpc.c:3792-3798 | the single value becomes the first entry |
| MultiValue.ValueGet | src/supla-common/srpc.c:3803-3847 | the method in place is that lookup, with sums in 32 bits, for all structures in which it stays inside; it copies only the value |
| MultiValue.FindEntry | src/supla-common/srpc.c:3820-3838 | the loop finds the entry or says why there is none, and ends although offsets may wrap |
| CaptionPack.SetPack | src/supla-common/srpc.c:2708-2757 | the bytes sent are the header with the count of legal items and these items, cut behind their captions; nothing is sent exactly for a bad count or when one of the allocations is refused |
| CaptionPack.SendStep | src/supla-common/srpc.c:2733-2749 | each item with a legal caption is appended, any other skipped |
| CaptionPack.PackedFields | src/supla-common/srpc.c:2724-2753 | what is sent has the corrected count and fits what the reader takes |
| CaptionPack.GetPack | src/supla-common/srpc.c:484-542 | the structure handed on, or none when sizes, count or items do not fit or memory is refused |
| CaptionPack.FillStep | src/supla-common/srpc.c:522-527 | each item found is placed at its index, zeros behind its caption |
| CaptionPack.ScanOfCut | src/supla-common/srpc.c:518-532 | scanning cut items finds them all, padded |
| CaptionPack.PackRoundTrip | src/supla-common/srpc.c:484-542 | what was packed unpacks to the items with legal captions, in order, count corrected and caption tails zeroed, for every pack and every layout |
| CaptionPack.TidyPackArrives | src/supla-common/srpc.c:484-542 | a pack with the right count, legal captions and zeros behind them arrives as it was, byte for byte |
| CaptionPack.TooLongIsLeftOut | src/supla-common/srpc.c:2733-2748 | an item is left out exactly when its caption size is above the maximum, the others stay in order |
| CaptionPack.LocationPackFits | src/supla-common/proto.h:782-797 | the layout of location packs is one of those |
| ConfigExchange.MissingMeaning | src/supla/element_with_channel_actions.cpp:583-596 | the missing types are the used ones not received, once each, in increasing order |
| ConfigExchange.SetThenTest | src/supla/element_with_channel_actions.cpp:69-125 | setting a type changes that type only |
| ConfigExchange.ReceiveLowest | src/supla/element_with_channel_actions.cpp:583-596 | receiving the lowest missing type leaves the others missing |
| ConfigExchange.SetAndClear | src/supla/element_with_channel_actions.cpp:69-125 | a type set is missing no more, a type cleared is missing again if it is used, no other type changes |
| ConfigExchange.OfferedAccepted | src/supla/element_with_channel_actions.cpp:534-557 | offering to any number of layers ends in a waiting state exactly when one accepts |
| ConfigExchange.OfferedCounts | src/supla/element_with_channel_actions.cpp:534-557 | a pending change accepted by exactly one layer is sent as such, by more as a config sent again |
| ConfigExchange.IterateDecreases | src/supla/element_with_channel_actions.cpp:500-581 | every iteration lowers the measure, whatever is sent, empty or refused |
| ConfigExchange.ReplyDecreases | src/supla/element_with_channel_actions.cpp:443-478 | every answer for the type sent lowers the measure |
| ConfigExchange.TryLaw | src/supla/element_with_channel_actions.cpp:508-577 | an iteration sends the lowest missing type, tries it three times, then gives it up, as it does at once without a config |
| ConfigExchange.NothingSent | src/supla/element_with_channel_actions.cpp:501-509 | nothing is sent before the server has finished, without a function, at rest, while an answer is awaited or after a rejection |
| ConfigExchange.AnswerLaw | src/supla/element_with_channel_actions.cpp:443-478 | what an answer does, for success and rejection, awaited or not, with types missing or not |
| ConfigExchange.ExchangeTerminates | src/supla/element_with_channel_actions.cpp:443-596 | any mix of failing sends, empty configs and rejections comes to rest within the measure |
| ConfigExchange.ExchangeOutcome | src/supla/element_with_channel_actions.cpp:443-596 | in None or SetChannelConfigFailed, within 24 steps |
| ConfigExchange.OfflineChangeIgnoresServer | src/supla/element_with_channel_actions.cpp:383-393 | while a local change is pending no config of the server other than OCR is applied |
| ConfigExchange.SendAndReply | src/supla/element_with_channel_actions.cpp:443-581 | a send and its success deal with the lowest missing type |
| ConfigExchange.AllMissingSent | src/supla/element_with_channel_actions.cpp:443-596 | with successful answers every missing type is sent once, lowest first, then the mark is cleared |
| ConfigExchange.RegisteredLaw | src/supla/element_with_channel_actions.cpp:295-314 | registration forgets what was received; a pending change stays, what was under way or rejected is sent again, a channel at rest waits |
| ConfigExchange.FinishedLaw | src/supla/element_with_channel_actions.cpp:316-331 | what is missing at the end of the configs will be sent; if nothing is, a waiting channel is at rest |
| ConfigExchange.ConfigNotApplied | src/supla/element_with_channel_actions.cpp:354-393 | which configs are not applied and what they change; function 0 leaves nothing to send |
| ConfigExchange.ConfigApplied | src/supla/element_with_channel_actions.cpp:395-424 | an applied config is received with success or without support, triggered if it has to be sent, and missing as before with wrong data |
| ConfigExchange.TriggerLaw | src/supla/element_with_channel_actions.cpp:492-498 | a triggered type is missing again, unless the server has rejected a config |
| ConfigExchange.TriggeredIsSent | src/supla/element_with_channel_actions.cpp:492-581 | and it is sent, with nothing else than what was missing |
| ConfigExchange.OrdinaryConnection | src/supla/element_with_channel_actions.cpp:295-581 | from rest, when the server sends every used type and finishes, the channel is at rest and no iteration sends anything |
| ConfigExchange.OfflineChangeWins | src/supla/element_with_channel_actions.cpp:295-596 | from registration with a pending change nothing of the server is applied, then every used type is sent exactly once in increasing order, ending in None |
| ConfigExchange.AppliedIffNotPending | src/supla/element_with_channel_actions.cpp:383-395 | in every state, a config of the server for a used type other than OCR is applied exactly when no change is pending |
| ConfigExchange.PendingEndsIff | src/supla/element_with_channel_actions.cpp:287-581 | for every event, exactly when it ends the pending state |
| ConfigExchange.FinishedEndsProtection | src/supla/element_with_channel_actions.cpp:322-330 | after registration the end of the configs gives up the pending state, before anything is sent, exactly when any config is used |
| ConfigExchange.NeverGuardedAgain | src/supla/element_with_channel_actions.cpp:287-596 | once a change is neither pending nor sent, no history without a new local change makes it so again |
| ConfigExchange.GuardedUntilFinished | src/supla/element_with_channel_actions.cpp:295-596 | over every history from registration the change is pending exactly until the server has finished |
| ConfigExchange.OfflineChangeLostIffFinished | src/supla/element_with_channel_actions.cpp:295-596 | over every such history a config of the server is applied if and only if the server has finished before |
| ConfigExchange.ReconnectApplies | src/supla/element_with_channel_actions.cpp:295-393 | a reconnect makes no difference to whether a config is applied |
| ConfigExchange.UnsentChangeIsOverwritten | src/supla/element_with_channel_actions.cpp:322-330 | a run in which a change that was never sent is overwritten, late or after a reconnect |
| ConfigExchange.SentChangeIsOverwritten | src/supla/element_with_channel_actions.cpp:306-330 | runs in which a change sent but not answered is overwritten after a reconnect, from both waiting states |
| ConfigExchange.InvHolds | src/supla/element_with_channel_actions.cpp:287-596 | over every history of all events, retries stay within three and a pending or sent local change is marked in the storage |
| ConfigExchange.MarkClearedWhenDone | src/supla/element_with_channel_actions.cpp:287-293 | the mark goes away only when nothing is missing or the server has rejected a config |
| ConfigExchange.MarkStaysUntilDone | src/supla/element_with_channel_actions.cpp:287-596 | over every history and through all states, a mark that is gone went away at an event after which nothing was missing or the server had rejected a config |
| ConfigExchange.ElementWithChannelActions.ClearChannelConfigChangedFlag | src/supla/element_with_channel_actions.cpp:287-293 | the method in place is the step ClearFlag |
| ConfigExchange.ElementWithChannelActions.OnRegistered | src/supla/element_with_channel_actions.cpp:295-314 | the method in place is the step Registered |
| ConfigExchange.ElementWithChannelActions.HandleChannelConfigFinished | src/supla/element_with_channel_actions.cpp:316-331 | the method in place is the step ConfigFinished |
| ConfigExchange.ElementWithChannelActions.HandleChannelConfig | src/supla/element_with_channel_actions.cpp:345-426 | the method in place is the step HandleConfig, and exactly when "not supported" and when "data error" is answered |
| ConfigExchange.ElementWithChannelActions.ApplyChannelConfig | src/supla/element_with_channel_actions.cpp:395-425 | the config is handed to the channel; the answer and the step for each way it was taken |
| ConfigExchange.ElementWithChannelActions.HandleSetChannelConfigResult | src/supla/element_with_channel_actions.cpp:443-478 | the method in place is the step SetResult |
| ConfigExchange.ElementWithChannelActions.TriggerSetChannelConfig | src/supla/element_with_channel_actions.cpp:492-498 | the method in place is the step Trigger |
| ConfigExchange.ElementWithChannelActions.GetNextConfigType | src/supla/element_with_channel_actions.cpp:583-596 | the search over the bits finds the first missing type, or -1 |
| ConfigExchange.ElementWithChannelActions.IterateConfigExchange | src/supla/element_with_channel_actions.cpp:500-581 | the method in place is the step Iterate, and the main loop is stopped exactly by a send |
| ConfigExchange.ElementWithChannelActions.Offer | src/supla/element_with_channel_actions.cpp:534-557 | the loop over the layers |
| ConfigExchange.LowestIsNext | src/supla/element_with_channel_actions.cpp:586-592 | the lowest bit of the complement is the first missing type |
| RsaSpki.BigEndianWidth | src/supla/rsa_verificator.cpp:29-39 | a number below 256 to the k has at most k base-256 digits, so eight suffice |
| RsaSpki.ReadLengthOf | src/supla/rsa_verificator.cpp:41-69 | a reader that takes only minimal lengths reads back every length written |
| RsaSpki.ReadTlvOf | src/supla/rsa_verificator.cpp:71-81 | a length field covers exactly the bytes enclosed |
| RsaSpki.SpkiRoundTrip | src/supla/rsa_verificator.cpp:83-151 | the reader recovers modulus and exponent 65537 exactly for moduli without superfluous leading zeros |
| RsaSpki.LeadingZeroIsRefused | src/supla/rsa_verificator.cpp:93-94 | a modulus with a superfluous zero that is encoded and refused by the reader |
| RsaSpki.DerLenBytes | src/supla/rsa_verificator.cpp:29-39 | the precomputed number of length octets is the number written |
| RsaSpki.DerWriteLen | src/supla/rsa_verificator.cpp:41-69 | writes exactly the length octets if they fit, inside the buffer |
| RsaSpki.LowBytesFirst | src/supla/rsa_verificator.cpp:52-60 | the collected bytes are the base-256 digits, lowest first, at most eight |
| RsaSpki.WriteReversed | src/supla/rsa_verificator.cpp:64-67 | they are written highest first |
| RsaSpki.DerWriteTagLen | src/supla/rsa_verificator.cpp:71-81 | tag and length, or failure |
| RsaSpki.NestedLengths | src/supla/rsa_verificator.cpp:93-113 | the precomputed lengths are those of the nested contents |
| RsaSpki.BuildRsaSpkiDer | src/supla/rsa_verificator.cpp:83-151 | succeeds exactly when the encoding fits and then writes exactly it and its length |
| RsaSpki.KeyFitsBuffer | src/supla/rsa_verificator.cpp:160-166 | a key of 512 bytes takes at most 550 of the 800 |
| RsaSpki.KeyOctets | src/supla/rsa_verificator.cpp:93-147 | every octet around a modulus of 512 bytes, the object identifier of rsaEncryption among them |
| ActionList.DestroyHandlerIsSafe | src/supla/action_handler.cpp:20-22 | no client of a destroyed handler remains, nor a condition in front of it |
| ActionList.DestroyHandlerLaw | src/supla/local_action.cpp:264-272 | a node loses its client exactly if it was the handler or a condition in front of it, nothing else changes, and only the handler is gone |
| ActionList.DeleteNodeLaw | src/supla/local_action.cpp:35-52 | with a node goes a condition it held, and nothing else |
| ActionList.DeleteNodeIsSafe | src/supla/local_action.cpp:35-52 | destroying a node together with its condition keeps the list safe |
| ActionList.DestroyTriggerIsSafe | src/supla/local_action.cpp:252-262 | so does destroying a trigger |
| ActionList.RunIsSafe | src/supla/local_action.cpp:35-114 | over every run, each node's client and the handler behind it are null or alive |
| ActionList.DeepIsSafe | src/supla/condition.cpp:136-138 | what conditions may pass a call on to includes the client and the handler behind it |
| ActionList.DestroyHandlerIsDeepIff | src/supla/action_handler.cpp:20-22 | destroying a handler leaves no way to it, through any number of conditions, if and only if no other node reaches it through two or more |
| ActionList.DeleteNodeIsDeepIff | src/supla/local_action.cpp:35-52 | the same for destroying a node together with its condition |
| ActionList.FlatIsDeep | src/supla/condition.cpp:136-194 | conditions only in front of handlers that are none leave no way to a destroyed one |
| ActionList.FlatRunIsDeep | src/supla/local_action.cpp:35-114 | over every run that puts no condition in front of a condition, and ties no node to a condition in front of one, nothing a call may go on to has been destroyed |
| ActionList.NestedConditionsAreNotCovered | src/supla/condition.cpp:136-194 | a run within the rules, from the empty world, after which a node reaches a destroyed handler |
| ActionList.ReusedPlaceIsNotCovered | src/supla/condition.cpp:164-166 | when a condition takes the address of a destroyed handler, looking at the calls of setClient alone is not enough |
| ActionList.DestroyTriggerExact | src/supla/local_action.cpp:252-262 | exactly the trigger's nodes go, the others keep order and everything but perhaps their client |
| ActionList.DestroyTriggerLaw | src/supla/local_action.cpp:252-262 | exactly which handlers are destroyed with a trigger and which clients of the remaining nodes are cleared |
| ActionList.LocalActions.AddAction | src/supla/local_action.cpp:83-96 | one node with these fields behind all others |
| ActionList.LocalActions.Append | src/supla/local_action.cpp:23-33 | the constructor links the node in at the end |
| ActionList.LocalActions.NullifyActionsHandledBy | src/supla/local_action.cpp:264-272 | clears exactly the clients that are the handler or a condition in front of it, and changes nothing else |
| ActionList.LocalActions.Destroy | src/supla/action_handler.cpp:20-22 | exactly these clients are cleared and only the handler is gone |
| ActionList.LocalActions.BypassNode | src/supla/local_action.cpp:41-51 | whatever pointed to the node points behind it, nothing else changes |
| ActionList.LocalActions.Unlink | src/supla/local_action.cpp:41-51 | the list without that node |
| ActionList.LocalActions.DeleteCondition | src/supla/local_action.cpp:36-39 | a condition is destroyed with its node, other handlers are not |
| ActionList.LocalActions.Delete | src/supla/local_action.cpp:35-52 | the node goes with a condition it held; everything else as ActionList.DeleteNodeLaw says |
| ActionList.LocalActions.Visit | src/supla/local_action.cpp:254-261 | one round of the loop that starts again at the head after a deletion makes progress |
| ActionList.LocalActions.DeleteActionsTriggeredBy | src/supla/local_action.cpp:252-262 | the loop terminates, and what goes, what is cleared and what stays is as ActionList.DestroyTriggerLaw says |
| ActionList.LocalActions.RunAction | src/supla/local_action.cpp:105-114 | calls every enabled handler of the trigger and event once, in list order, with the action of its node; in a deep world every one and everything conditions pass the call on to is alive |
| ActionList.CallsAreSafe | src/supla/local_action.cpp:105-114 | in a deep world no call goes on to a destroyed handler, through any number of conditions |
| ActionList.CallsLaw | src/supla/local_action.cpp:105-114 | which nodes are called, each once and in order, and with what |
| Elements.StopMeaning | src/SuplaDevice.cpp:558-565 | a round stops behind the first element that answers false |
| Elements.VisitedInTime | src/SuplaDevice.cpp:546-565 | an element is visited within as many rounds as elements stand between it and the cursor |
| Elements.RoundRobinIsFair | src/SuplaDevice.cpp:546-565 | n consecutive rounds visit every one of n elements, whatever they answer |
| Elements.BusyElementsNeedAllRounds | src/SuplaDevice.cpp:558-563 | fewer rounds do not, when all are busy |
| Elements.Device.Last | src/supla/element.cpp:61-67 | the last element, or none |
| Elements.Device.Add | src/supla/element.cpp:34-40 | appends and leaves the cursor where it is |
| Elements.Device.Delete | src/supla/element.cpp:42-55 | takes out exactly that element and raises the flag |
| Elements.Device.Bypass | src/supla/element.cpp:44-54 | whatever pointed to the element points behind it |
| Elements.Device.IterateConnected | src/SuplaDevice.cpp:551-565 | visits the elements from the cursor, or from the live head after a deletion, up to the first busy one, and goes on behind it next time |
| Elements.Device.IterateRounds | src/SuplaDevice.cpp:546-565 | as many rounds as there are elements, each with answers of its own, call every element of an unchanged list |
| Elements.Device.Walk | src/SuplaDevice.cpp:558-565 | the loop over the list |
| Hostname.LoopKeeps | src/SuplaDevice.cpp:1365-1396 | the moving end never makes the name longer than planned; only allowed characters, no hyphen first or doubled |
| Hostname.LoopIsSanitize | src/SuplaDevice.cpp:1365-1396 | the loop sanitizes a prefix of the name, at least as long as planned |
| Hostname.SanitizeKeepsLetters | src/SuplaDevice.cpp:1366-1395 | no letter or digit of that prefix is lost, added or moved |
| Hostname.HostNameLaws | src/SuplaDevice.cpp:1322-1403 | length at most 31 less the appendix, alphabet, hyphens, and the letters kept, for every name and MAC size |
| Hostname.MappedLettersLaw | src/SuplaDevice.cpp:1366-1382 | letters are kept in upper case, digits as they are |
| Hostname.OtherCharacters | src/SuplaDevice.cpp:1366-1395 | which characters vanish and which become one hyphen |
| Hostname.PlainHostName | src/SuplaDevice.cpp:1331-1396 | a name of letters and digits is taken whole, or as far as the appendix leaves room |
| Hostname.SpecialHostNames | src/SuplaDevice.cpp:1347-1352 | OH! at the start becomes SUPLA- |
| Hostname.NamelessHostName | src/SuplaDevice.cpp:1360-1363 | a device without a name is SUPLA-DEVICE |
| Hostname.GenerateHostname | src/SuplaDevice.cpp:1322-1403 | writes that name and zeros into the 32 bytes and returns its length with the NUL |
| Hostname.Prepare | src/SuplaDevice.cpp:1323-1358 | where the loop starts and how much of the name is left out |
| Hostname.FillName | src/SuplaDevice.cpp:1365-1396 | the loop in place, never outside its array |
| Hostname.CopyName | src/SuplaDevice.cpp:1398-1400 | the copy ends with the name |
| Uptime.TickExact | src/supla/uptime.cpp:25-40 | a reading within the failsafe keeps both counters exact across the wrap |
| Uptime.TickExactIff | src/supla/uptime.cpp:28-33 | the device counter stays right exactly when the gap is within the failsafe |
| Uptime.GapIsSkipped | src/supla/uptime.cpp:28-39 | after a gap of more than an hour nothing is counted and counting goes on from the reading |
| Uptime.RunExact | src/supla/uptime.cpp:25-45 | over every timely run, device uptime is true time in seconds and connection uptime the seconds ticked since the last reset, modulo 2^32 |
| Uptime.Counter.Iterate | src/supla/uptime.cpp:25-40 | the loop in place counts whole seconds and keeps the rest |
| Uptime.Counter.ResetConnectionUptime | src/supla/uptime.cpp:42-43 | only the connection counter is reset |
| UrlCoding.HexPairRoundTrip | src/supla/tools.cpp:94-148 | two hexadecimal digits read back as the byte they were written from |
| UrlCoding.HexPairLaw | src/supla/tools.cpp:98-110 | the digits are 0 to 9 and A to F, high digit first |
| UrlCoding.HexValueLaw | src/supla/tools.cpp:136-142 | digits of either case have their values, other characters none |
| UrlCoding.HexTextLaw | src/supla/tools.cpp:101-112 | where digits and separators stand |
| UrlCoding.GenerateHexString | src/supla/tools.cpp:94-114 | two digits a byte, separators between, a NUL behind, nothing else written |
| UrlCoding.HexStringToInt | src/supla/tools.cpp:123-148 | the value of the digits modulo 2^32, other characters counting as 0 |
| UrlCoding.FitLengthMaximal | src/supla/tools.cpp:233-251 | the prefix encoded is the longest whose encoding fits |
| UrlCoding.EncodeLaw | src/supla/tools.cpp:234-245 | letters, digits and the marks - . _ ~ stand for themselves, every other byte is escaped in upper case |
| UrlCoding.UrlEncode | src/supla/tools.cpp:229-255 | writes the encoding of that prefix and a NUL, splits no escape, leaves the rest of the buffer alone |
| UrlCoding.PutByte | src/supla/tools.cpp:234-249 | a byte is written as it is or as a whole escape, exactly if it fits |
| UrlCoding.DecodeStep | src/supla/tools.cpp:205-225 | one step decodes one character and never overtakes what is still to be read |
| UrlCoding.PlainText | src/supla/tools.cpp:205-225 | text without escapes, plus signs and NUL decodes to itself |
| UrlCoding.SpecialText | src/supla/tools.cpp:206-218 | plus stands for a space, NUL ends the text, an escape cut off gives a NUL |
| UrlCoding.EscapedText | src/supla/tools.cpp:208-213 | an escape stands for its byte, in digits of either case |
| UrlCoding.ShorterIffShrinks | src/supla/tools.cpp:205-226 | the decoded text is shorter, so that a NUL fits in its place, exactly when a byte ends the text or an escape is in it |
| UrlCoding.UrlDecodeInplace | src/supla/tools.cpp:201-227 | the buffer holds the decoded text and a NUL, its rest as it was |
| UrlCoding.DecodeOfEncode | src/supla/tools.cpp:201-255 | decoding undoes encoding for every NUL-free text, whatever follows its NUL |
| UrlCoding.UrlRoundTrip | src/supla/tools.cpp:201-255 | in one buffer of any size, decoding gives back the encoded prefix, the whole text if and only if its encoding fits |
| SemVer.CompareMeaning | src/supla/tools.cpp:591-623 | the result is the lexicographic order of the zero-padded numbers |
| SemVer.ValueOfShow | src/supla/tools.cpp:601-604 | the number of a decimal numeral is the number it was made from |
| SemVer.LeadingZeros | src/supla/tools.cpp:601-604 | zeros in front make no difference |
| SemVer.ComponentsOfPrint | src/supla/tools.cpp:599-616 | reading a written version gives the numbers it was written from, whatever the separator |
| SemVer.TenIsNewerThanNine | src/supla/tools.cpp:599-619 | 1.10 is newer than 1.9 |
| SemVer.CompareIff | src/supla/tools.cpp:591-623 | in both directions, for all three results |
| SemVer.Antisymmetric | src/supla/tools.cpp:618-619 | exchanging the versions negates the result |
| SemVer.Transitive | src/supla/tools.cpp:591-623 | versions are totally preordered |
| SemVer.ReadComponent | src/supla/tools.cpp:600-607 | one decimal number and the separator behind it |
| SemVer.ReadNumber | src/supla/tools.cpp:600-604 | the decimal number, which never leaves the range of int on the way |
| SemVer.CompareSemVer | src/supla/tools.cpp:591-623 | the scanner terminates and compares the numbers of both strings, of which those up to the first difference must fit an int; null equals everything |
| SemVer.CompareNext | src/supla/tools.cpp:599-620 | one round decides, or leaves the comparison to the rest |
| Crc16.Constants | src/supla/crc16.cpp:28-41 | the bit patterns are those of 0xA001, 0xFFFF and 0 |
| Crc16.BitsOfXor | src/supla/crc16.cpp:25-28 | exclusive or of words is that of their bits |
| Crc16.BitsOfHalf | src/supla/crc16.cpp:27-30 | shifting a word right drops its lowest bit |
| Crc16.BitsOfByte | src/supla/crc16.cpp:22-25 | a byte widened to a word has no high bits |
| Crc16.BitsTell | src/supla/crc16.cpp:22-34 | different words have different bits |
| Crc16.BitsOfShift | src/supla/crc16.cpp:27-30 | one round of the loop is one shift of the bits |
| Crc16.Crc16Update | src/supla/crc16.cpp:22-34 | the loop over the machine word is eight shifts of its bits |
| Crc16.CalculateCrc16 | src/supla/crc16.cpp:36-47 | the loop over the bytes of the message; no data gives 0 |
| Crc16.UpdateLinear | src/supla/crc16.cpp:22-34 | the difference of two registers develops like a register fed with the difference |
| Crc16.ChecksumResidue | src/supla/crc16.cpp:22-47 | a message followed by its checksum, low byte first, checks to 0 |
| Crc16.AdjacentErrorsDetected | src/supla/crc16.cpp:22-47 | messages of any one length that differ only within two adjacent bytes have different checksums |
| Crc16.ResidueIsZero | src/supla/crc16.cpp:22-47 | for words: the checksum of a message followed by its own, low byte first, is 0 |
| Crc16.AdjacentBytesDetected | src/supla/crc16.cpp:22-47 | for words: the checksums of messages that differ only within two adjacent bytes differ |
| Crc16.ChecksumParity | src/supla/crc16.cpp:22-47 | the parity of the checksum is that of the message |
| Crc16.OddErrorsDetected | src/supla/crc16.cpp:22-47 | any odd number of wrong bits changes the checksum |

## Left out

- MultiValue.ValueGet: structures in which the lookup leaves the structure, where the source has no defined result; `MultiValue.AllInsideIff` says exactly which have such lookups, `MultiValue.LookupLeavesAt` gives one.
- SrpcServer.Server.ReceiveRun: streams in which the sum of header and declared size wraps around 32 bits; such a packet shows bytes of the packet handled before it, which may be one sent (`FrameCodec.WrappedShowsImage`).
- MultiValue.ValueAdd: sizes with which a copy leaves a structure (`MultiValue.AddInside`), for the same reason.
- CaptionPack.SetPack: the count stands first in the structure and the caption size just before the caption, as in every pack of the protocol.
- UrlCoding.UrlDecodeInplace: a text that leaves no room for the NUL (`UrlCoding.Shrinks` says when a buffer of just its size does), where the NUL goes behind the buffer.
- SemVer.CompareSemVer: numbers up to the first difference that do not fit an int, where the addition overflows.
- RsaSpki.BuildRsaSpkiDer: the sum of all lengths fits size_t (64 bits); null pointers.
- ActionList.LocalActions.RunAction: handlers that change the list while it is being walked, calls on disabling or enabling actions, and whether a condition is met.
- SrpcDevice.Srpc.IterateDevice: callbacks that call back into the object; a callback is an entry of a trace.
- DeleteActionsHandledBy: nothing in the library calls it.
- The cause of a lost connection, which the uptime object stores once per connection.
- The AVR build, where long has another size; the ESP8266 and Arduino settings that switch the integrity buffer off.
- The errno test in sproto_buffer_append, locking, raising events, null-pointer arguments, logging.
- srpc_getdata with its switch over calls and the wrappers around srpc_async__call: one size check each.
- The consumer of the queue of received packets, which pops by id: `SrpcQueue.Queue.Pop` is its only step.
- The electricity meter codec, where only a round trip would be a sound claim.
- Storage and protocol notifications of configuration changes beyond the stored mark of an offline change.
- The bytes of the channel configurations: which config is filled, applied or refused is a parameter.
- mbedTLS, hashing and the hardware drivers: thin layers over code that is not part of this model.
- Everything else SuplaDevice.cpp orchestrates: registration, web server, status LED, restarts.
