# The QUIC core of quiche, modelled and proved in Dafny

This project models the parts of quiche that carry the most state and arithmetic, and proves what they promise:

- **Range sets** (`RangeSpec`, `RangeSets`): sets of packet numbers as sorted disjoint ranges, held in a vector or in an
  ordered map that swap at thresholds, against plain mathematical sets.
- **Cursors, variable-length integers and frames** (`Varints`, `Cursors`, `FrameSpec`, `FrameProofs`, `FrameSafety`,
  `FrameLaws`, `FramePayload`, `FrameReaders`, `FrameIO`): the printer, parser and length predictor of QUIC frames
  (section 19 of RFC 9000) with the multipath and flexicast extensions.
- **Connection identifiers** (`CidSpec`, `SourceRuns`, `DestinationRuns`, `CidLaws`, `CidProtocol`, `CidUsability`,
  `CidCycle`, `PathSpaces`, `PathHalves`, `PathEdges`, `PathLaws`, `PathCids`): issuing, advertising and
  retiring IDs, the protocol between two endpoints (sections 5.1.1, 5.1.2 and 19.15 of RFC 9000), and the path-ID spaces
  of multipath on top.
- **Stream reassembly** (`RecvSpec`, `RecvBuffers`, `RecvSizes`): chunks that arrive in any order, overlapping and repeated,
  and the final size they must agree on.
- **The HTTP/3 frame parser** (`H3Parser`): a resumable Type/Length/Value machine (section 7.1 of RFC 9114).
- **Trackers** (`Minmax`, `MinmaxExpiry`, `FlowControl`, `FlowLaws`): the windowed minimum/maximum filter and receive flow control.

Code that updates fields or buffers in place is a class or a method with loops, proved against functions on values;
the theorems are about those functions and about whole runs. `dafny verify dfyconfig.toml` checks everything.

Where the code does not meet an expectation one would have of it, the model keeps the code's behaviour and states
exactly when the expectation holds:

- `UselessCallKeepsStateIff`, `FailedRenewalsBlockRetirement`: `new_scid` raises the retirement floor before checks that
  can still fail, so failing calls can use up every usable ID.
- `LateFrameIsRefused`: a NEW_CONNECTION_ID frame carries the floor in force when it is built, not when its ID was issued;
  built late it is refused by the receiver. `NoSpuriousRefusal` has the exact condition.
- `RecalledButActive`, `WrittenOffButActive`: the receiver can use an ID the sender no longer counts as usable, while the
  frame that recalls it is on the way, or after a renewal that raised the floor and failed, until a later issue recalls it
  or it is given up. `RunActiveUsableIff` has the exact condition for every run whose frames are built at once.
- `RetireDcidLeaksIff`, `RetirementCanLeak`: giving up a destination ID while the retire set is full drops its number.
  `RoomToRetire` shows that a peer that keeps to the limits never brings this about.
- `TwoIssuesDistinctIff`, `RepeatedFirstFrame`: a path space opened by the peer gives its first two source IDs the same
  number, and forgets the reset token of its first destination ID.
- `RetiredAlready`, `RepeatedRequestRefused`: a repeated RETIRE_CONNECTION_ID is answered without effect while two IDs are
  left; with one left it is an error, although its ID went away before.
- `CloseKeepsBuildableIff`, `ClosedPathStopsSending`: closing a path leaves its queued numbers behind, and the next packet
  fails because no frame can be built for them.
- `CloseRecordedIff`, `CloseCanGoUnrecorded`: closing a path whose destination IDs do not fit in its retire set drops the
  space without recording the path as closed.
- `CloseKeepsSpareIff`, `ClosedPathStaysSpare`: closing a path whose ID is still spare leaves the ID on the heap, so the
  next path to open is one that has no space.
- `DrainRightIff`: draining at a partition point is only right for a list the floor cuts in two;
  `ReorderedFramesCannotBeCut` reaches one that it does not.
- `WireLenExactIff`: `wire_len` leaves out the bitrate of an MC_ANNOUNCE frame that `to_bytes` writes.
- `DataLengthIff`: the two-byte length of CRYPTO, STREAM and DATAGRAM frames only carries 16383 bytes.
- `FinOnRepetition`: a fin flag that arrives only on data already read finishes the stream, but nothing becomes readable.
- `IsFullyReadable`, `PartlyReadStream`: the test for a fully readable stream looks at where the first chunk began, so it
  denies a complete stream after a partial read.
- `StepKeeps` of flow control, `AdvertisedLimitFallsIff`: MAX_DATA announces a lower limit when the window was forced above its maximum.
- `MinRunCanMissMinimum`: the windowed filter is not the window minimum; `MinRunExactOnSuffix`,
  `ExactWhenLowestInWindow` and `InexactOnlyAfterExpiry` say what it is and when it is exact, `MinAfterExpiry` and
  `MinAfterLateExpiry` what is left of it when the best estimate leaves the window.

Where documentation and code differ the model follows the code: the comment on `autotune_window` speaks of a factor of
1.5, the constant is 2 (quiche/src/flowcontrol.rs:106-119).

## Model

| member | source | states |
|---|---|---|
| `RangeSpec.InsertedSet` | quiche/src/ranges.rs:183-310 | inserting a range into sorted, non-empty, strictly separated ranges is union with the interval and keeps that form |
| `RangeSpec.InsertIsUnion` | quiche/src/ranges.rs:183-310 | the same value by value, and where the first range of the result starts |
| `RangeSpec.CanonicalUnique` | quiche/src/ranges.rs:40-60 | two lists in canonical form that cover the same values are equal, so a set has one representation |
| `RangeSpec.InsertLength` | quiche/src/ranges.rs:183-310 | the number of ranges grows by one exactly when the item touches no stored range |
| `RangeSpec.InsertBoundedExact` | quiche/src/ranges.rs:200-233 | with a capacity, the result stays within it and covers the item; values are lost only when full and untouched, and then exactly the lowest range; the largest value stays |
| `RangeSpec.DroppedSet` | quiche/src/ranges.rs:251-265 | `remove_until` is set subtraction of all values up to the bound, and keeps the canonical form |
| `RangeSpec.DropIsSubtraction` | quiche/src/ranges.rs:312-327 | the same value by value, with no more ranges than before |
| `RangeSpec.FlattenEnumerates` | quiche/src/ranges.rs:138-146 | flattening lists every member once, in increasing order |
| `RangeSets.InlineRangeSet.Insert` | quiche/src/ranges.rs:183-249 | the in-place vector insertion, with its merge loop and eviction, computes the bounded insertion on values |
| `RangeSets.InlineRangeSet.RemoveUntil` | quiche/src/ranges.rs:251-265 | the vector loop computes the subtraction on values |
| `RangeSets.BTreeRangeSet.Insert` | quiche/src/ranges.rs:270-310 | the map insertion, by absorbing neighbours one at a time, lists as the same bounded insertion |
| `RangeSets.BTreeRangeSet.RemoveUntil` | quiche/src/ranges.rs:312-327 | removing and re-inserting the ranges that start at or below the bound lists as the subtraction; the re-insertion merges and evicts nothing |
| `RangeSets.PrevTo` | quiche/src/ranges.rs:329-334 | the last range starting at or below a value, if any |
| `RangeSets.NextTo` | quiche/src/ranges.rs:336-341 | the first range starting at or above a value, if any |
| `RangeSets.ListingFaithful` | quiche/src/ranges.rs:123-136 | iterating the map in key order gives a canonical list of the same length that covers the same values |
| `RangeSets.ToMapLists` | quiche/src/ranges.rs:85-105 | collecting a vector into a map and listing it back is the identity |
| `RangeSets.InsertBoth` | quiche/src/ranges.rs:183-310 | from equal views the two insertion algorithms reach equal views |
| `RangeSets.RangeSet.Fixup` | quiche/src/ranges.rs:85-105 | switching representation keeps the view and capacity, and leaves fewer than four ranges in the vector and more than two in the map |
| `RangeSets.RangeSet.Insert` | quiche/src/ranges.rs:108-121 | insertion through either representation is the bounded insertion on the view |
| `RangeSets.RangeSet.RemoveUntil` | quiche/src/ranges.rs:168-175 | subtraction through either representation |
| `RangeSets.RangeSet.PushItem` | quiche/src/ranges.rs:177-179 | insertion of one value |
| `RangeSets.RangeSet.First` | quiche/src/ranges.rs:149-155 | the least member, or nothing exactly when the set is empty |
| `RangeSets.RangeSet.Last` | quiche/src/ranges.rs:158-164 | the greatest member, or nothing exactly when the set is empty |
| `RangeSets.RunRefinesSet` | quiche/src/ranges.rs:113-175 | over every run of insertions and removals the ranges stay canonical and denote the set of the same run on sets |
| `RangeSets.Replay` | quiche/src/ranges.rs:67-175 | the same of the object itself, through every change of representation |
| `Varints.VarintRoundTripIff` | octets/src/lib.rs:406-470 | writing with a legal length and reading back before any suffix returns the value and consumes that length, if and only if the value fits |
| `Varints.VarintRoundTrip` | octets/src/lib.rs:432-436 | the shortest encoding of every value below 2^62 reads back |
| `Varints.DecodedIsShort` | octets/src/lib.rs:174-197 | a decoded value needs no more bytes than were consumed, and the rest is a suffix |
| `Varints.FromToBe` | octets/src/lib.rs:352-404 | big-endian writing and reading are inverse |
| `Cursors.OctetsMut.PutBytes` | octets/src/lib.rs:561-577 | writes exactly the window at the cursor, or leaves buffer and offset alone when it is too short |
| `Cursors.OctetsMut.PutUint` | octets/src/lib.rs:86-109 | the same for fixed-width integers |
| `Cursors.OctetsMut.PutVarintWithLen` | octets/src/lib.rs:438-470 | the same for a varint of a given length, whose length bits are set after the integer is written |
| `Cursors.OctetsMut.PutVarint` | octets/src/lib.rs:432-436 | the same for the shortest varint |
| `Cursors.Octets.GetBytes` | octets/src/lib.rs:200-214 | reads from the rest and advances, or fails and stays |
| `Cursors.Octets.GetUint` | octets/src/lib.rs:55-84 | the same for fixed-width integers |
| `Cursors.Octets.GetVarint` | octets/src/lib.rs:174-197 | the same for variable-length integers |
| `FrameProofs.AckRoundTrip` | quiche/src/frame.rs:1923-2033 | for every canonical non-empty set below 2^62, delay and ECN counts, printing never underflows and parsing gives them back and leaves the suffix |
| `FrameProofs.BlocksRoundTrip` | quiche/src/frame.rs:1941-1958 | the gap and block loop rebuilds the ranges below any already read |
| `FrameProofs.CidRoundTrip` | quiche/src/frame.rs:364-385 | the fields shared by NEW_CONNECTION_ID and PATH_NEW_CONNECTION_ID read back |
| `FrameProofs.StreamRoundTrip` | quiche/src/frame.rs:2123-2150 | a STREAM frame reads back with its offset, data and fin flag |
| `FrameProofs.CwndsRoundTrip` | quiche/src/frame.rs:546-565 | the nested list of channel windows reads back |
| `FrameProofs.AnnounceRoundTrip` | quiche/src/frame.rs:473-519 | an MC_ANNOUNCE frame reads back, with or without a bitrate |
| `FrameProofs.KeyRoundTrip` | quiche/src/frame.rs:527-544 | an MC_KEY frame reads back |
| `FrameProofs.BodyRoundTrip` | quiche/src/frame.rs:276-614 | after the type, every frame kind in range parses to itself before any suffix |
| `FrameProofs.FrameRoundTrip` | quiche/src/frame.rs:276-614 | every printed frame in range parses to itself before any suffix, or is refused exactly when its kind is not allowed in the packet type |
| `FrameProofs.DataLengthIff` | quiche/src/frame.rs:2069-2121 | CRYPTO, STREAM and DATAGRAM frames parse back if and only if their data is at most 16383 bytes |
| `FrameLaws.VarintSamples` | octets/src/lib.rs:174-197 | the sample encodings of appendix A.1 of RFC 9000 decode to their values |
| `FrameLaws.StreamTypes` | quiche/src/frame.rs:2123-2150 | for all eight STREAM types, with any legal length of each field: 0x04 announces the offset, 0x02 the length, 0x01 is FIN; without an offset data starts at 0, without a length it fills the packet |
| `FrameLaws.StreamTooLong` | quiche/src/frame.rs:2140-2142 | data ending beyond the largest stream offset is refused |
| `FrameLaws.DatagramTypes` | quiche/src/frame.rs:2152-2166 | both DATAGRAM types, with and without a length |
| `FrameLaws.CidLengthIff` | quiche/src/frame.rs:364-385 | a connection ID of 1 to 20 bytes is read back, any other is refused |
| `FrameLaws.TokenIff` | quiche/src/frame.rs:317-326 | an empty NEW_TOKEN is refused, any other is read back |
| `FrameLaws.AlgorithmIff` | quiche/src/frame.rs:527-544 | the three algorithms of MC_KEY by number; any other number is refused |
| `FrameLaws.QosIff` | quiche/src/frame.rs:473-519 | MC_ANNOUNCE with a quality of service up to 3 is read back; any other does not parse, where the program panics |
| `FrameLaws.PacketCarries` | quiche/src/frame.rs:570-614 | by type number, which frames Initial, Handshake and 0-RTT packets may carry: a frame that parses is accepted if and only if its type is among them |
| `FrameLaws.PacketRefuses` | quiche/src/frame.rs:276-569 | a frame that does not parse is refused for its own reason in every packet type |
| `FrameLaws.HeaderLengths` | quiche/src/frame.rs:971-1295 | a header-only frame is as long as the frame with that much data |
| `FrameLaws.LimitBytes` | quiche/src/frame.rs:616-969 | the exact bytes of MAX_DATA, MAX_STREAM_DATA and MAX_STREAMS |
| `FrameLaws.BlockedBytes` | quiche/src/frame.rs:616-969 | of DATA_BLOCKED, STREAM_DATA_BLOCKED and STREAMS_BLOCKED |
| `FrameLaws.ResetBytes` | quiche/src/frame.rs:616-969 | of RESET_STREAM, STOP_SENDING and NEW_TOKEN |
| `FrameLaws.DataBytes` | quiche/src/frame.rs:616-969 | of CRYPTO, STREAM and DATAGRAM, with their two-byte length |
| `FrameLaws.ControlBytes` | quiche/src/frame.rs:616-969 | of PING, HANDSHAKE_DONE, RETIRE_CONNECTION_ID and the path validation frames |
| `FrameLaws.CloseBytes` | quiche/src/frame.rs:616-969 | of both CONNECTION_CLOSE frames |
| `FrameLaws.NewCidBytes` | quiche/src/frame.rs:616-969 | of NEW_CONNECTION_ID and its multipath form |
| `FrameLaws.PathStatusBytes` | quiche/src/frame.rs:616-969 | of PATH_ABANDON, PATH_BACKUP and PATH_AVAILABLE |
| `FrameLaws.PathLimitBytes` | quiche/src/frame.rs:616-969 | of PATH_RETIRE_CONNECTION_ID, MAX_PATH_ID and PATHS_BLOCKED |
| `FrameLaws.FlexicastBytes` | quiche/src/frame.rs:616-969 | of MC_STATE and MC_KEY |
| `FrameLaws.AnnounceBytes` | quiche/src/frame.rs:616-969 | of MC_ANNOUNCE with and without a bitrate |
| `FrameLaws.AckBytes` | quiche/src/frame.rs:2000-2033 | of an ACK with two ranges, for any ranges |
| `FrameSafety.FrameForward` | quiche/src/frame.rs:276-614 | on arbitrary bytes an accepted frame consumes at least one byte and leaves a suffix |
| `FrameSafety.BodyForward` | quiche/src/frame.rs:281-569 | every frame body parser leaves a suffix of its input |
| `FrameSafety.BlocksBoundedByBytes` | quiche/src/frame.rs:1941-1958 | the ACK loop completes at most half as many turns as bytes remain, whatever the block count says |
| `FrameSafety.BlocksExact` | quiche/src/frame.rs:1941-1958 | on success the loop ran once per block and put that many canonical ranges below those already read |
| `FrameSafety.AckExact` | quiche/src/frame.rs:1923-1973 | on arbitrary bytes a parsed ACK has block count + 1 ranges and its maximum is the Largest Acknowledged field |
| `FramePayload.PayloadRoundTrip` | quiche/src/frame.rs:276-969 | printing any list of frames in range and parsing it as a 1-RTT payload gives the list with runs of padding joined, consuming every byte |
| `FramePayload.PayloadIdentityIff` | quiche/src/frame.rs:276-969 | the very same list comes back if and only if it is in normal form: no two paddings in a row and no MTU-probe mark |
| `FramePayload.SizeIsWireLen` | quiche/src/frame.rs:971-1295 | the printed size is `wire_len` plus what `wire_len` forgets |
| `FramePayload.WireLenExactIff` | quiche/src/frame.rs:1218-1251 | `wire_len` is the printed size if and only if the frame is not an MC_ANNOUNCE with a bitrate |
| `FramePayload.AckSize` | quiche/src/frame.rs:2035-2067 | the accumulated ACK length is the number of bytes the ACK printer writes |
| `FramePayload.InRangeSerialisable` | quiche/src/frame.rs:616-969 | a frame with fields in range never makes a put call panic |
| `FrameIO.PutBlocks` | quiche/src/frame.rs:2014-2024 | the downward block loop writes the encoding of the blocks, or as much of it as fits |
| `FrameIO.CommonAckToBytes` | quiche/src/frame.rs:2000-2033 | the ACK printer writes the encoding, or as much of it as fits |
| `FrameIO.PutPadding` | quiche/src/frame.rs:620-628 | writes that many zero bytes |
| `FrameIO.PutCwnds` | quiche/src/frame.rs:960-964 | writes the encoding of the channel windows |
| `FrameIO.ToBytes` | quiche/src/frame.rs:616-969 | succeeds if and only if the remaining capacity holds the predicted length, then advances by exactly that and touches nothing else |
| `FrameIO.CommonAckWireLen` | quiche/src/frame.rs:2035-2067 | the accumulating loop computes the size of the printed ACK |
| `FrameIO.ParseBlockLoop` | quiche/src/frame.rs:1937-1958 | the parsing loop, inserting into a `RangeSet`, reads what the block parser on values reads |
| `FrameIO.ParseCommonAckFrame` | quiche/src/frame.rs:1923-1973 | the in-place ACK parser reads what the parser on values reads, without underflow |
| `FrameIO.SkipZeros` | quiche/src/frame.rs:282-292 | consumes exactly the run of zero bytes |
| `FrameIO.ParseCwndLoop` | quiche/src/frame.rs:552-557 | the loop reads what the list parser on values reads |
| `FrameReaders.ReadStream` | quiche/src/frame.rs:2123-2150 | the cursor code of a STREAM frame, with its optional offset and length, reads what the parser on values reads |
| `FrameReaders.ReadDatagram` | quiche/src/frame.rs:2152-2166 | the same for DATAGRAM |
| `FrameReaders.ReadCid` | quiche/src/frame.rs:364-385 | the same for the connection-ID fields and their length check |
| `FrameReaders.ReadAnnounce` | quiche/src/frame.rs:473-519 | the same for MC_ANNOUNCE |
| `FrameReaders.ReadKey` | quiche/src/frame.rs:527-544 | the same for MC_KEY |
| `FrameReaders.ReadBody` | quiche/src/frame.rs:294-544 | every payload without a loop, and the refusal of unknown types |
| `FrameIO.FromBytes` | quiche/src/frame.rs:276-614 | the cursor parser, field by field for straight-line payloads and with loops for the others, reads what the parser on values reads |
| `FrameIO.PrintThenParse` | quiche/src/frame.rs:276-969 | printing into a buffer and parsing that buffer gives the frame back, refuses its kind, or reports the buffer too short, each in exactly its case |
| `SourceRuns.ApplyKeeps` | quiche/src/cid.rs:361-477 | every call, failing or not, keeps the invariant and moves the floor and the next number up only |
| `SourceRuns.RunKeepsInvariant` | quiche/src/cid.rs:413-663 | over every run numbers are strictly increasing and below the next one, IDs are distinct, the queue is never empty nor over 2 * limit - 1, at most limit IDs are usable, and the floor never falls nor passes the next number |
| `SourceRuns.RaisingRunBounds` | quiche/src/cid.rs:361-372 | when the limit is only raised, those bounds are the ones of the limit in force |
| `SourceRuns.LoweredLimitKeepsOldIds` | quiche/src/cid.rs:361-372 | a lowered limit leaves more usable IDs than it allows |
| `SourceRuns.LimitKeptIff` | quiche/src/cid.rs:361-372 | a new limit leaves no more usable IDs than it allows if and only if it is below two and ignored, or at least their number |
| `SourceRuns.UselessCallKeepsStateIff` | quiche/src/cid.rs:413-460 | a call that adds nothing leaves the state alone if and only if it did not raise the floor |
| `SourceRuns.RetireAcceptedIff` | quiche/src/cid.rs:641-663 | retiring a stored ID that is not the last succeeds if and only if the request came on another ID and another ID is usable; exactly that entry leaves |
| `SourceRuns.FailedRenewalsBlockRetirement` | quiche/src/cid.rs:424-434 | renewals that fail for lack of room lead to the refusal of a rightful retirement |
| `SourceRuns.TwoIssuesDistinctIff` | quiche/src/cid.rs:413-505 | whatever happens between them, two issued IDs of a space get different numbers if and only if they are not the first two of a space the peer created |
| `SourceRuns.RunCounts` | quiche/src/cid.rs:413-505 | over every run the next number grows by one for each issued ID, except the first of a peer-created space |
| `SourceRuns.SecondIssueReplaces` | quiche/src/cid.rs:494-505 | the second ID of a peer-created space takes the place of the first |
| `DestinationRuns.RetireAllExact` | quiche/src/cid.rs:60-73 | a list of new numbers reaches the bounded set whole if and only if there is room for all of them |
| `DestinationRuns.RetireAllIff` | quiche/src/cid.rs:60-73 | any list of numbers is taken in whole if and only if the set is not full before the last of them |
| `DestinationRuns.RetireAllCounts` | quiche/src/cid.rs:60-73 | for distinct numbers not retired yet, if and only if they all fit |
| `DestinationRuns.SortedCut` | quiche/src/cid.rs:597-602 | in a sorted list the drained prefix is exactly what lies below the floor |
| `DestinationRuns.DrainRightIff` | quiche/src/cid.rs:597-602 | some prefix is exactly what lies below the floor if and only if the list is partitioned by it |
| `DestinationRuns.ReorderedFramesCannotBeCut` | quiche/src/cid.rs:519-629 | frames accepted out of order reach a list no drain cuts right |
| `DestinationRuns.NewDcidExact` | quiche/src/cid.rs:519-629 | an in-order frame is accepted if and only if its floor does not pass its number and both queues have room; then all active numbers below the floor move to the retire set and the new one becomes active |
| `DestinationRuns.RetireDcidExact` | quiche/src/cid.rs:678-687 | an active ID that is not the last always leaves, and moves to the retire set if and only if there is room; for any other number nothing changes, and the call succeeds if and only if the space is closing |
| `DestinationRuns.RetireDcidLeaksIff` | quiche/src/cid.rs:678-687 | the call loses a number if and only if it is active, not the last, and the retire set is full |
| `DestinationRuns.RetiredPathsExact` | quiche/src/cid.rs:602-613 | an accepted in-order frame reports exactly the network paths bound to the active IDs it retires |
| `DestinationRuns.RunKeepsFloor` | quiche/src/cid.rs:519-719 | over every in-order run, closing or not, the active list is non-empty, within capacity, sorted, with distinct IDs, and at or above the largest floor received |
| `DestinationRuns.RunConserves` | quiche/src/cid.rs:519-719 | every accepted call of such a run conserves the numbers held, and every call that gives up an ID loses exactly what `RetireDcidLeaksIff` says |
| `CidProtocol.FrameExists` | quiche/src/cid.rs:1384-1411 | every stored number above 0 has a frame, with its ID and the floor in force |
| `CidProtocol.OnePlace` | quiche/src/cid.rs:413-687 | a conserved number is in exactly one place: pending, active, waiting to be retired, or in a retire request |
| `CidProtocol.RoomToRetire` | quiche/src/cid.rs:293-358 | in every reachable state the retire set has room for all active IDs, so no call ever loses a number |
| `CidProtocol.GiveUpKeeps` | quiche/src/cid.rs:678-687 | giving up a destination ID, refused or not, leaves the connection open and the invariant intact |
| `CidProtocol.DeliverKeeps` | quiche/src/cid.rs:519-629 | a delivery keeps the invariant; when accepted, the active IDs are stored by the sender and at or above the frame's floor (`RunActiveUsableIff` says when they are usable) |
| `CidProtocol.DeliveryOutcome` | quiche/src/cid.rs:519-629 | the receiver accepts the next frame if and only if its floor does not pass its number; neither its ID limit nor its retire set is ever the reason |
| `CidProtocol.AcceptKeeps` | quiche/src/cid.rs:641-663 | a retire request always names a stored ID that is not the last; it is refused only for the two reasons of `RetireAcceptedIff` |
| `CidProtocol.RunInvariant` | quiche/src/cid.rs:413-687 | every interleaving of both endpoints keeps conservation, order, agreement on IDs and the room for every frame in flight |
| `CidProtocol.NoSpuriousRefusal` | quiche/src/cid.rs:519-629 | from the handshake on, no interleaving makes `new_dcid` fail except by the condition of `DeliveryOutcome` |
| `CidProtocol.PromptRunIsDelivered` | quiche/src/cid.rs:1384-1411 | when every frame is built right after its `new_scid`, no interleaving ever makes `new_dcid` fail |
| `CidProtocol.QueueOvertaken` | quiche/src/cid.rs:1307-1321 | a queued number can be overtaken by renewals that raise the floor past it |
| `CidProtocol.LateFrameIsRefused` | quiche/src/cid.rs:546-553 | the frame of an overtaken number carries a floor above it and ends the connection |
| `CidUsability.RunWritesOff` | quiche/src/cid.rs:413-687 | in every run whose frames are built at once, failing renewals included, no frame on the way is ahead of the floor, and the numbers written off (held, below the floor, not recalled) are those counted event by event |
| `CidUsability.StepTidyIff` | quiche/src/cid.rs:426-460 | an event writes the first number off if and only if it is a renewal that raises the floor past a held number and then fails a guard |
| `CidUsability.IssueSettles` | quiche/src/cid.rs:413-460 | any issue that adds its ID leaves nothing written off, whatever failed before |
| `CidUsability.AddsIff` | quiche/src/cid.rs:413-460 | `new_scid` adds its ID if and only if the limit allows it or the floor can be raised, a token is given, the ID is new and the queue is not full |
| `CidUsability.ActiveUsableIff` | quiche/src/cid.rs:465-477 | the active IDs are usable at the sender if and only if no frame on the way has an active number below its floor and none is written off |
| `CidUsability.RunActiveUsableIff` | quiche/src/cid.rs:413-687 | the same in every run from the handshake on whose frames are built at once, with the written-off numbers counted event by event |
| `CidUsability.UsableRemains` | quiche/src/cid.rs:653-655 | while nothing is written off, the sender keeps a usable ID besides the one a retire request names |
| `CidUsability.RunRetireRefusedIff` | quiche/src/cid.rs:641-663 | in every run that ends with nothing written off a retire request is refused if and only if it came on the ID it retires |
| `CidUsability.RecalledButActive` | quiche/src/cid.rs:426-433 | with a raising frame on the way the receiver uses an ID the sender no longer counts as usable |
| `CidUsability.WrittenOffButActive` | quiche/src/cid.rs:426-460 | after a renewal that raised the floor and failed it does so with nothing on the way |
| `CidCycle.IssueArrives` | quiche/src/cid.rs:413-629 | from every reachable state with nothing on the way, an ID that is added and sent at once is active at the receiver, under its number, after one delivery |
| `CidCycle.RetirementCompletes` | quiche/src/cid.rs:641-687 | from every reachable state, giving up an active ID that is not the last, sending the request and accepting it makes both sides forget that number and no other; the request is refused if and only if it came on that ID or no other is usable |
| `CidCycle.RaisedLimitAdmits` | quiche/src/cid.rs:361-372 | an ID refused for the limit is issued with the next number once the limit is raised |
| `CidLaws.FirstFrame` | quiche/src/cid.rs:525-529 | the first frame of a space teaches it its only ID, with its token |
| `CidLaws.RepeatedFrameIff` | quiche/src/cid.rs:531-544 | a frame that shares ID or number with an active entry is accepted if and only if ID, number and token are that entry's; either way nothing changes |
| `CidLaws.SelfRetiringFrame` | quiche/src/cid.rs:546-553 | a new frame whose floor passes its own number is refused and changes nothing |
| `CidLaws.LateFrameIff` | quiche/src/cid.rs:556-564 | a new frame numbered below the known floor is accepted if and only if the retire set has room; then its number is in the set and nothing else changed |
| `CidLaws.TimelyFrameExact` | quiche/src/cid.rs:566-629 | any other new frame, in any order: what is drained, kept, stored and remembered, and that it is accepted if and only if set and list have room |
| `CidLaws.AnyFrameConserves` | quiche/src/cid.rs:519-629 | in whatever order frames arrive, an accepted one adds its number to those active or to be retired, and none leaves |
| `CidLaws.AnyRunConserves` | quiche/src/cid.rs:519-629 | over every run of frames in any order the list stays distinct and bounded, and if all are accepted the numbers held are the old ones and theirs |
| `CidLaws.DrainStopsAt` | quiche/src/cid.rs:602-613 | the drain takes the entries the set has room for, and reports the network paths of those and of the first that does not fit |
| `CidLaws.PathsLostIff` | quiche/src/cid.rs:597-613 | an accepted frame reports the network paths of exactly the IDs that left the active list, in whatever order frames arrive |
| `CidLaws.RetireDcidAnswer` | quiche/src/cid.rs:678-687 | giving up an active ID answers the network path stored with it; the last one stays, with an answer or a refusal as the space is closing or not |
| `CidLaws.RetireDcidUnknown` | quiche/src/cid.rs:678-687 | a number that is not active changes nothing, and which refusal it gets |
| `CidLaws.UnissuedRefused` | quiche/src/cid.rs:644-646 | a request for a number never issued is refused and changes nothing |
| `CidLaws.RetiredAlready` | quiche/src/cid.rs:648-662 | a request for an issued number no longer stored changes nothing, and is answered with nothing unless one ID is left on an open space |
| `CidLaws.LastIsKept` | quiche/src/cid.rs:213-228 | the last ID is never removed: a closing space answers with nothing, an open one refuses |
| `CidLaws.RetireScidAnswer` | quiche/src/cid.rs:641-663 | a request for a stored number removes exactly that entry; accepted, it is the answer and the floor becomes the least usable number |
| `CidLaws.RetireIsIdempotent` | quiche/src/cid.rs:641-663 | after an accepted request the same request, from anywhere, changes nothing and is answered with nothing while two IDs are left |
| `CidLaws.RepeatedRequestRefused` | quiche/src/cid.rs:213-228 | with one ID left it is an error instead |
| `CidLaws.IssueAnswer` | quiche/src/cid.rs:413-460 | the number answered is that of a stored entry with the given ID and token, which is new exactly when the answer says so |
| `CidLaws.IssueRefusals` | quiche/src/cid.rs:413-460 | each outcome of `new_scid` and the condition under which it is reached |
| `CidLaws.LimitEffect` | quiche/src/cid.rs:361-372 | a granted limit below two is ignored, one too large is cut, and the queue only grows |
| `PathSpaces.OpenSpaceSucceedsIff` | quiche/src/cid.rs:984-1014 | an absent path ID gets its space if and only if it is allowed and not closed; by pigeonhole the capacity is never the reason |
| `PathSpaces.RemoveKeeps` | quiche/src/cid.rs:1480-1509 | removal keeps the spaces well formed, forgets no closed ID, and on success has recorded this one |
| `PathSpaces.RunKeepsSpaces` | quiche/src/cid.rs:881-1091 | over every run path IDs are distinct, allowed, at most the largest seen and not closed, capacity is 1 + the largest allowed ID, and a closed ID never has a space again |
| `PathEdges.CloseRecordedIff` | quiche/src/cid.rs:1480-1509 | the path is recorded as closed if and only if its retire set is not full before the last of its active IDs (for distinct unretired IDs: if and only if they all fit); the space goes either way |
| `PathEdges.CloseCanGoUnrecorded` | quiche/src/cid.rs:1492-1508 | a run of six renewals on a new path reaches a state in which closing it fails half-way |
| `PathEdges.ClosedPathStaysSpare` | quiche/src/cid.rs:907-920 | the peer opens a path, it is closed before its use, and its ID is the next spare one |
| `PathEdges.CloseKeepsSpareIff` | quiche/src/cid.rs:1480-1509 | from a state in which every spare ID has a space, closing a path keeps that if and only if its ID is not spare or the path is the last and stays |
| `PathEdges.StepKeepsSpareIff` | quiche/src/cid.rs:881-1509 | every other call keeps it |
| `PathEdges.RunKeepsSpare` | quiche/src/cid.rs:881-1509 | over every run that closes only paths whose ID is not spare, every spare ID has a space and none is closed |
| `PathEdges.LowestSpareIsOpen` | quiche/src/lib.rs:9474-9492 | in such a state the ID the next path would take has a space and is not closed |
| `PathEdges.RetirementCanLeak` | quiche/src/cid.rs:678-687 | a run fills the retire set, and giving up an ID then fails and loses it |
| `PathEdges.RepeatedFirstFrame` | quiche/src/cid.rs:293-358 | repeating the frame that opened the destination side is harmless if and only if we opened the space |
| `PathLaws.NewScidQueues` | quiche/src/cid.rs:970-1020 | an ID newly issued is in the queue for NEW_CONNECTION_ID frames, behind the older ones, if and only if that was asked for; any other call leaves the queue alone |
| `PathLaws.MarkedOff` | quiche/src/cid.rs:1307-1321 | marking a pair off takes it out and keeps all others in order |
| `PathLaws.RunKeepsDistinct` | quiche/src/cid.rs:867-1509 | over every run no pair is queued twice |
| `PathLaws.RunKeepsIssued` | quiche/src/cid.rs:867-1509 | over every run that leaves a path open, every number queued for it was issued on it |
| `PathLaws.FrameOfIff` | quiche/src/cid.rs:1384-1411 | a queued number has a frame if and only if its path has a space that stores it with a token; the frame carries that ID, that token and the floor in force |
| `PathLaws.CloseKeepsBuildableIff` | quiche/src/cid.rs:1480-1509 | closing a path keeps every queued number buildable if and only if none is of that path or the path is the last |
| `PathLaws.ClosedPathStopsSending` | quiche/src/lib.rs:4515-4521 | opening a path and closing it before its first frame was sent leaves a number no frame can be built for |
| `PathLaws.CloseTells` | quiche/src/cid.rs:1480-1509 | a closed path tells the application each of its source IDs, in order, and nothing else |
| `PathLaws.RetireTells` | quiche/src/cid.rs:1104-1122 | a retired source ID is told and its network path answered; any other outcome tells nothing |
| `PathLaws.NewScidRefusals` | quiche/src/cid.rs:970-1014 | why opening a path with a source ID is refused, which then changes nothing |
| `PathLaws.NewDcidRefusals` | quiche/src/cid.rs:1042-1091 | the same for a frame on an absent path |
| `PathLaws.LostPathsAre` | quiche/src/cid.rs:1042-1062 | which network paths a frame reports, on a path with and without a space |
| `PathLaws.AbsentAnswers` | quiche/src/cid.rs:1104-1149 | what the calls on a path without a space answer, and that they change nothing |
| `PathLaws.CloseAnswers` | quiche/src/cid.rs:1480-1509 | closing a closed, forbidden, last or absent path |
| `PathLaws.ClosingSpaceKeepsLast` | quiche/src/cid.rs:1473-1477 | on a closing space a call for the last ID is answered without effect, where it was refused before |
| `PathLaws.MarkedEffect` | quiche/src/cid.rs:1327-1333 | after marking, the number is in the retire set if and only if it is to be retired; no other number moves, and only a full set refuses |
| `PathLaws.ConsumedInOrder` | quiche/src/cid.rs:912-919 | spare path IDs are consumed in increasing order, the same one again only if the heap held it twice |
| `PathLaws.NewSpaceRoom` | quiche/src/cid.rs:293-358 | the limits of a new space are the connection's, at least two, whoever opens it, and its retire set is three times as large |
| `PathLaws.NewSpaceHasLimit` | quiche/src/cid.rs:867-878 | a space opened after the limit was set has it |
| `PathLaws.ZeroLengthPeer` | quiche/src/cid.rs:1023-1032 | a peer with a zero-length ID gets no others and has none to retire |
| `PathLaws.ZeroLengthOurs` | quiche/src/cid.rs:812-850 | a connection with a zero-length source ID issues none; any other issues its second ID with number 1 |
| `PathLaws.LearntId` | quiche/src/cid.rs:1023-1032 | after the handshake its ID is the only destination ID of path 0 |
| `PathLaws.AllowedEffect` | quiche/src/cid.rs:888-904 | limits on path IDs only rise, room follows them, and a rise that asks for it is announced |
| `PathSpaces.InitialHalves` | quiche/src/cid.rs:293-358 | the halves of a new space are the states the run theorems start from, with their invariants |
| `PathSpaces.IdsStay` | quiche/src/cid.rs:867-1149 | retirements, limits, closing and the handshake ID leave path IDs, spare IDs and limits alone |
| `PathHalves.ApplyTouches` | quiche/src/cid.rs:867-1509 | a call changes only the space of its path ID, and that as the single-space functions say |
| `PathHalves.StaysOpen` | quiche/src/cid.rs:867-1509 | only closing a path takes its space away |
| `PathHalves.OpenAfterClose` | quiche/src/cid.rs:1480-1509 | which spaces are left after closing a path |
| `PathHalves.RunKeepsSource` | quiche/src/cid.rs:867-1509 | over every run that does not close the path its source half keeps the source invariant, and floor and next number never fall |
| `PathHalves.RunKeepsDestination` | quiche/src/cid.rs:867-1509 | over every such run with in-order frames for the path its destination half keeps the destination invariant, and the floor received never falls |
| `PathCids.PathConnectionIdentifiers.constructor` | quiche/src/cid.rs:293-358 | a new space has the halves the model starts from, with their invariants |
| `PathCids.PathConnectionIdentifiers.SetSourceLimit` | quiche/src/cid.rs:361-372 | the new source half; the destination half is untouched |
| `PathCids.PathConnectionIdentifiers.NewScid` | quiche/src/cid.rs:413-460 | the new source half and answer, failing calls included; the destination half is untouched |
| `PathCids.PathConnectionIdentifiers.LowestUsableScidSeq` | quiche/src/cid.rs:465-477 | the scan finds the least usable number, or that there is none |
| `PathCids.PathConnectionIdentifiers.NewDcid` | quiche/src/cid.rs:519-629 | the new destination half, the answer and the network paths reported; the source half is untouched |
| `PathCids.PathConnectionIdentifiers.Drain` | quiche/src/cid.rs:597-613 | the drain loop removes the prefix, feeds it to the retire set until one is refused, and collects the network paths on the way |
| `PathCids.PathConnectionIdentifiers.RetireScid` | quiche/src/cid.rs:641-663 | the new source half and answer |
| `PathCids.PathConnectionIdentifiers.RetireDcid` | quiche/src/cid.rs:678-687 | the new destination half and answer |
| `PathCids.ConnectionIdentifiers.constructor` | quiche/src/cid.rs:812-850 | a new connection satisfies the invariant of the runs, with one space |
| `PathCids.ConnectionIdentifiers.Find` | quiche/src/cid.rs:853-865 | the position of the space of a path ID |
| `PathCids.ConnectionIdentifiers.NewScid` | quiche/src/cid.rs:970-1020 | the new collection, queues, spare and largest path ID and answer, for existing and absent spaces |
| `PathCids.ConnectionIdentifiers.NewDcid` | quiche/src/cid.rs:1042-1091 | the new collection, spare and largest path ID, answer and reported network paths, for existing and absent spaces |
| `PathCids.ConnectionIdentifiers.RemovePathId` | quiche/src/cid.rs:1480-1509 | the new collection, closed list and notifications |
| `PathCids.ConnectionIdentifiers.LowestSparePathId` | quiche/src/cid.rs:912-914 | the least spare path ID, if any |
| `PathCids.ConnectionIdentifiers.ConsumeLowestSparePathId` | quiche/src/cid.rs:917-919 | takes one occurrence of it off the heap |
| `PathCids.ConnectionIdentifiers.SetLocalMaxPathId` | quiche/src/cid.rs:888-896 | the new limit, capacity and the wish to announce it |
| `PathCids.ConnectionIdentifiers.SetRemoteMaxPathId` | quiche/src/cid.rs:899-904 | the new limit and capacity |
| `PathCids.ConnectionIdentifiers.SetSourceConnIdLimit` | quiche/src/cid.rs:867-878 | the limit reaches every space and those to come, and nothing else changes |
| `PathCids.ConnectionIdentifiers.RetireScid` | quiche/src/cid.rs:1104-1122 | the new collection, the notification of the application and the answer, also for absent spaces |
| `PathCids.ConnectionIdentifiers.RetireDcid` | quiche/src/cid.rs:1136-1149 | the new collection and answer, for existing, absent and closed paths |
| `PathCids.ConnectionIdentifiers.MarkRetireDcidSeq` | quiche/src/cid.rs:1327-1333 | the number enters or leaves the retire set of its space |
| `PathCids.ConnectionIdentifiers.ClosingPathId` | quiche/src/cid.rs:1473-1477 | both halves of the space are closing from now on |
| `PathCids.ConnectionIdentifiers.SetInitialDcid` | quiche/src/cid.rs:1023-1032 | the handshake ID replaces the destination list of path 0 |
| `RecvSpec.StoredAt` | quiche/src/stream/recv_buf.rs:249-253 | storing a chunk that overlaps nothing adds its bytes and loses none |
| `RecvSpec.StoredSorted` | quiche/src/stream/recv_buf.rs:249-253 | and keeps the chunks in order and apart |
| `RecvBuffers.Untangle` | quiche/src/stream/recv_buf.rs:222-247 | the overlap loop splits a chunk into at most a part to store, which overlaps nothing, and a part to look at again, with every byte in one of them or stored already |
| `RecvBuffers.RecvBuf.Absorb` | quiche/src/stream/recv_buf.rs:191-254 | every offset keeps the byte that came first and gains the new one if it had none |
| `RecvBuffers.RecvBuf.Write` | quiche/src/stream/recv_buf.rs:94-257 | which chunks are refused, that refusals change nothing, the new bytes, length and final size, and when a first fin flag leaves nothing to read |
| `RecvBuffers.RecvBuf.Emit` | quiche/src/stream/recv_buf.rs:268-341 | reads the bytes at the following offsets, as many as are there or fit, accounts for them, and tells the end |
| `RecvBuffers.RecvBuf.Shutdown` | quiche/src/stream/recv_buf.rs:406-418 | drops the buffer and counts what arrived as read |
| `RecvBuffers.RecvBuf.AlmostFull` | quiche/src/stream/recv_buf.rs:426-428 | the flow-control test cannot underflow, because what is consumed stays within the limit |
| `RecvBuffers.RecvBuf.IsFullyReadable` | quiche/src/stream/recv_buf.rs:463-477 | true if and only if the end is known and every byte up to it is buffered and the first chunk is not partly read |
| `RecvBuffers.FrontIsReady` | quiche/src/stream/recv_buf.rs:453-460 | if the next byte is buffered the stream is readable |
| `RecvBuffers.Reassemble` | quiche/src/stream/recv_buf.rs:94-341 | for every order, overlap and repetition of the pieces of a stream, mixed with any reads, the bytes read are the stream up to the first byte that did not arrive |
| `RecvBuffers.PartlyReadStream` | quiche/src/stream/recv_buf.rs:463-477 | a complete stream is no longer reported as fully readable once one byte of it was read |
| `RecvBuffers.FinOnRepetition` | quiche/src/stream/recv_buf.rs:150-189 | a fin flag on data already read finishes the stream without making it readable |
| `RecvSizes.AcceptedIff` | quiche/src/stream/recv_buf.rs:94-148 | over every run of writes a chunk is accepted if and only if it is within the limit and agrees with every chunk accepted before: no data beyond a fin, no fin before data, one final size; and which refusal it gets |
| `RecvSizes.FinalSizeStays` | quiche/src/stream/recv_buf.rs:113-148 | over every run the final size, once known, never changes, and accepted data stays within it |
| `RecvSizes.ContradictionsRefused` | quiche/src/stream/recv_buf.rs:113-130 | a byte beyond the final size or a fin at another place is refused and changes neither size nor length |
| `RecvSizes.Receive` | quiche/src/stream/recv_buf.rs:94-257 | the buffer gives the answers of these runs |
| `H3Parser.OneShotInvertsStream` | h3i/src/frame_parser.rs:118-202 | the one-shot parser gives back any list of frames within the size limit, followed by what the tail holds |
| `H3Parser.SizeLimitIff` | h3i/src/frame_parser.rs:243-273 | what the first frame of any stream comes to: too long beyond two million bytes, incomplete, not decodable, or parsed |
| `H3Parser.VarintDone` | h3i/src/frame_parser.rs:142-169 | completing the type or length moves the machine on without changing the frames to come |
| `H3Parser.FrameParser.TryFillBuffer` | h3i/src/frame_parser.rs:208-223 | what is held plus what the transport still has is unchanged |
| `H3Parser.FrameParser.TryConsumeVarint` | h3i/src/frame_parser.rs:225-237 | resizes from the first byte without losing it; answers exactly when the varint is complete |
| `H3Parser.FrameParser.StateTransition` | h3i/src/frame_parser.rs:243-259 | a new empty buffer of the expected size, or a refusal that changes nothing |
| `H3Parser.FrameParser.SetFrameType` | h3i/src/frame_parser.rs:261-266 | keeps the frames to come |
| `H3Parser.FrameParser.SetFrameLen` | h3i/src/frame_parser.rs:268-273 | keeps the frames to come, or is stuck exactly when the length is over 2 MB |
| `H3Parser.FrameParser.TryParseFrame` | h3i/src/frame_parser.rs:118-202 | a parsed frame is the next of the stream, any other answer leaves the frames to come as they were, an error other than Done is final, and every call makes progress |
| `H3Parser.ReadAll` | h3i/src/frame_parser.rs:118-273 | for every way of cutting the bytes into reads, the frames handed out are the leading ones of the one-shot parser, and all of them with the same ending once the reads suffice |
| `H3Parser.SendAndRead` | h3i/src/frame_parser.rs:118-273 | frames sent are the frames received, in order, each once |
| `Minmax.EstimateOrder` | quiche/src/minmax.rs:100-177 | the three estimates are ordered in time and value, and bounded by the latest sample |
| `Minmax.RunningMinKeeps` | quiche/src/minmax.rs:100-118 | each estimate stays a sample that bounds all later ones, and the best is inside the window, whatever the thresholds |
| `Minmax.MinRunTracks` | quiche/src/minmax.rs:89-177 | the same over every run, resets included |
| `Minmax.MinRunExactOnSuffix` | quiche/src/minmax.rs:100-118 | the result is the minimum of a suffix of all samples that lies in the window, so between the true window minimum and the latest sample |
| `Minmax.ExactWhenLowestInWindow` | quiche/src/minmax.rs:100-177 | with one window throughout, the result is the window minimum whenever the window holds the lowest sample so far |
| `Minmax.ExactUnlessExpired` | quiche/src/minmax.rs:142-160 | an exact estimate stays exact through every measurement that finds a new minimum or comes before it expires |
| `Minmax.InexactOnlyAfterExpiry` | quiche/src/minmax.rs:142-160 | so in every run with windows that never widen, exactness is lost only when the best estimate expires |
| `Minmax.ResetExactIff` | quiche/src/minmax.rs:89-97 | a reset is exact if and only if its sample is no higher than the others in the window |
| `Minmax.MinRunCanMissMinimum` | quiche/src/minmax.rs:142-160 | a lower sample inside the window can be forgotten |
| `Minmax.RunDuality` | quiche/src/minmax.rs:121-139 | a run of `running_max` is the run of `running_min` on negated values |
| `Minmax.RunningMaxKeeps` | quiche/src/minmax.rs:121-139 | each estimate of the maximum stays a sample that no later one exceeds, and the best is inside the window |
| `Minmax.MaxRunTracks` | quiche/src/minmax.rs:121-177 | the same over every run, resets included |
| `Minmax.MaxEstimateOrder` | quiche/src/minmax.rs:121-177 | the three estimates are ordered in time, reversed in value, and bounded by the latest sample |
| `Minmax.MaxRunExactOnSuffix` | quiche/src/minmax.rs:121-139 | the result of `running_max` is the maximum of a suffix of all samples that lies in the window, so between the latest sample and the true window maximum |
| `MinmaxExpiry.SpreadOut` | quiche/src/minmax.rs:160-174 | while the best estimate stands, past a quarter of the window the second is younger than it, and past a half the third is younger than the second unless that was taken just now |
| `MinmaxExpiry.SpreadOutMax` | quiche/src/minmax.rs:160-174 | the same for the maximum |
| `MinmaxExpiry.StandingKeeps` | quiche/src/minmax.rs:100-177 | while the best estimate stands, the second is the exact minimum of the samples later than a quarter of the window after it, the third of those later than half a window and than the second |
| `MinmaxExpiry.RunStands` | quiche/src/minmax.rs:100-177 | the same over every run from a restart to the expiry |
| `MinmaxExpiry.RestartForgets` | quiche/src/minmax.rs:89-108 | a new minimum, an empty window or a reset starts the run again, so these theorems hold from any such point of any run |
| `MinmaxExpiry.MinAfterExpiry` | quiche/src/minmax.rs:147-160 | when the best estimate expires and a measurement says so within a quarter of the window, the result is the exact minimum of all samples after its first quarter; it is the window minimum if and only if no lower sample of that quarter is in the window |
| `MinmaxExpiry.MinAfterLateExpiry` | quiche/src/minmax.rs:147-174 | within half a window of the expiry the result is still a sample from after the first quarter that no sample after the first half undercuts, the last one before the expiry included |
| `MinmaxExpiry.MaxAfterExpiry` | quiche/src/minmax.rs:121-177 | the first of these for the maximum |
| `MinmaxExpiry.MaxAfterLateExpiry` | quiche/src/minmax.rs:121-177 | the second for the maximum |
| `Minmax.Filter.Reset` | quiche/src/minmax.rs:89-97 | all three estimates become the sample |
| `Minmax.Filter.SubwinUpdate` | quiche/src/minmax.rs:142-177 | the in-place shifts compute the promotion on values |
| `Minmax.Filter.RunningMin` | quiche/src/minmax.rs:100-118 | the in-place update returns the minimum of a suffix of the samples within the window |
| `Minmax.Filter.RunningMax` | quiche/src/minmax.rs:121-139 | the in-place update returns the maximum of a suffix of the samples within the window and keeps all three estimates right |
| `FlowControl.StepKeeps` | quiche/src/flowcontrol.rs:81-126 | one operation keeps the credit within its cap whatever the lower bounds, and lowers the limit in exactly one case |
| `FlowControl.StepRaises` | quiche/src/flowcontrol.rs:81-126 | with windows within their maximum nothing falls, and a needed update raises the limit by more than half the window |
| `FlowControl.RunCredit` | quiche/src/flowcontrol.rs:81-126 | over every run, whatever the lower bounds, outstanding credit never exceeds the largest limit or window ever given |
| `FlowControl.RunRaises` | quiche/src/flowcontrol.rs:81-126 | over every run with lower bounds within the largest window the limit never falls, with the total raise of its needed updates |
| `FlowControl.FreshRunCredit` | quiche/src/flowcontrol.rs:58-68 | from a new controller, outstanding credit never exceeds the larger of the initial limit and the largest window |
| `FlowLaws.NoUpdateIff` | quiche/src/flowcontrol.rs:89-93 | no update is asked for if and only if the peer holds at least half a window of credit |
| `FlowLaws.NextUpdateIff` | quiche/src/flowcontrol.rs:89-104 | after an update the next one is needed if and only if more than half the window was consumed since |
| `FlowLaws.BusyDoubles` | quiche/src/flowcontrol.rs:101-119 | updates that follow each other within two round-trip times multiply the window by two each, up to its maximum, and leave one window of credit |
| `FlowLaws.SlowKeepsWindow` | quiche/src/flowcontrol.rs:109-119 | updates at least two round-trip times apart never change the window |
| `FlowControl.AdvertisedLimitFallsIff` | quiche/src/lib.rs:4637-4651 | sending MAX_DATA lowers the limit if and only if autotuning fires on a window above its maximum that alone made the limit look higher |
| `FlowControl.AdvertisedLimitCanFall` | quiche/src/flowcontrol.rs:109-126 | such a state is reached by raising the lower bound twice |
| `FlowControl.Controller.ShouldUpdateMaxData` | quiche/src/flowcontrol.rs:89-93 | when it says yes the next limit is more than half a window higher |
| `FlowControl.Controller.UpdateMaxData` | quiche/src/flowcontrol.rs:101-104 | the committed record |
| `FlowControl.Controller.AutotuneWindow` | quiche/src/flowcontrol.rs:109-119 | the doubled, capped window, only within the trigger time |
| `FlowControl.Controller.EnsureWindowLowerBound` | quiche/src/flowcontrol.rs:122-126 | the window, raised if below the bound |
| `FlowControl.Controller.SendMaxData` | quiche/src/lib.rs:4636-4656 | the connection's MAX_DATA step and the limit it puts in the frame |

## Left out

- `apps/`, `nginx/`, `fuzz/`, the foreign-function interface, the build scripts, qlog conversion and `Debug` output: plumbing around the modelled core.
- RecvBuffers.RecvBuf.Write: without flexicast stream rotation (`fc_data`), which rests on modules outside the modelled core.
- RecvBuffers.RecvBuf.Emit: without the loop of flexicast rotation and without RESET_STREAM, so a stream never reports a reset.
- H3Parser.FrameParser.TryFillBuffer: without the FIN flag, which depends on transport behaviour outside the model.
- H3Parser.FrameParser.TryParseFrame: without the interruptions by FIN and stream reset, for the same reason.
- The panic of `build_h3i_frame` on a HEADERS payload QPACK cannot decode (h3i/src/frame_parser.rs:285-286): the model returns an error there.
- Payload decoding in the HTTP/3 parser: whether a payload decodes is an arbitrary predicate, and the decoder's errors are one code.
- `RangeBuf` sharing of one buffer between chunks: a chunk is a value. The program's queue of parts in `write` is an optional part, since `Untangle` returns at most one.
- Equality of `RangeSet` objects, which depends on the representation: sets are compared by their ranges.
- `remove_until(u64::MAX)` on the map representation, where the program's addition overflows, and empty items.
- An insertion below all ranges of a full vector with a capacity under four, where the program's index underflows (`InlinePanics`).
- `partition_point` on a list that is not partitioned: the program's result is unspecified; the model takes the leading count, and `DrainRightIff` covers every possible result.
- The iteration order of the retire set, which is a hash set in the program; `next_retire_dcid_seq` is a choice of any member.
- An unknown FcQos byte, on which the program panics, is an error in the model.
- The floating-point quarter and half window of `Minmax` are arbitrary numbers, and values are integers.
- Overflow of the 64-bit flow-control counters.
- `slice_last` and the other cursor helpers no modelled code uses.
- PathLaws.FrameOfIff: the fields of the frame; that path 0 uses NEW_CONNECTION_ID and other paths its multipath form is not in its result.
- RecvBuffers.RecvBuf.UpdateMaxData: supposes that the limit does not fall, as after `almost_full`.
