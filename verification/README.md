# tssniff: a Dafny model of the fake disk

tssniff shows a set-top box a disk that is partly a fake. Host writes are acknowledged into a shared-memory
overlay, put back into order, and run through an MPEG-TS scanner. Ordinary data goes to a backing image;
recorded television is streamed to network clients and then dropped, and holes are punched where the NTFS
`$MFT` says that captured bytes belong to files. This project models those parts and proves what they
promise each other.

`dafny verify dfyconfig.toml` checks everything.

## How the model is laid out

Objects that the program updates in place are classes with the same fields, loops and branches, and each
method is proved equal to a function on values. What the system promises is then proved about those
functions, and the step machines that interleave the goroutines are built from the same functions.

- `Sorting`, `Ranges`, `Ring`: sorting by start and end, byte-range lists (coalesce, subtract, overlap), and
  the fixed-capacity rings. Ring capacities are symbolic positive numbers everywhere.
- `Disk`, `Overlay`: the disk as a value (image, overlay, owning generation of every byte), and `SHMDisk`,
  whose sorted extent list refines that byte-to-generation map.
- `Types`, `Writing`, `Pipeline`, `FuseDisk`: the writer with its bounded history and guarded punches, the
  reordering dispatcher, and the acknowledgement of one host write.
- `Protocol`, `Reads`, `Releases`, `Witnesses`: the life of a write as a step machine (acknowledge, arrive, sniff,
  forward, persist, release, punch), what a read returns in every reachable state, what a release gives back for
  good, and runs that show where reading back stops.
- `Scanner`, `ScanRuns`, `Sniffing`, `SniffedRuns`, `Hub`: the streaming scanner, its results over every way of
  splitting a stream, the loop that turns writes into captures and broadcasts, what any list of writes is flagged,
  captured and broadcast as, and the three lossy broadcast queues.
- `Captured`: how far captured bytes are the ones on the disk.
- `Runlist`, `Fixup`, `MFTMap`, `MFTIndex`, `FileRanges`, `Ntfs`: the runlist decoder, the record fixup, the
  logical-to-physical map of the `$MFT` and its two inverses, the ranges files own, and the incremental tracker.
- `Tracker`, `TrackerRecords`, `Observation`, `TrackerReads`, `TrackerWitnesses`: the tracker's agreement with a
  full rescan while the host goes on writing, step by step; what it remembers, told by the bytes of the records; the
  steps of one observation put together; when its reads find what the disk holds; and runs that show where the
  agreement stops.
- `Reconciling`: the join between captures and file ranges, kept complete from both sides.

## Main results

1. **Reading back** (`Reads.ReadsExactly`, `Reads.ReadsLatest`, `Reads.ReadsBack`). In every reachable state, for
   every order of arrivals, persists, releases and punches: a byte that some overlay extent holds reads as its
   latest acknowledged write, which that extent is of, and every unhandled write is held so. Any other byte reads
   as the last ordinary data that reached the image there, as the original image if there was none, or as zero if
   a punch came later. For a byte whose latest write is ordinary that is this write, unless a punch took it; a
   released MPEG-TS write uncovers what the image held before it, and a write once released never again holds all of
   its range in the overlay (`Releases.ReleasedForGood`).
2. **Delayed punches** (`Reads.PunchKeepsNewer`, `Reads.RememberedExactly`). A punch cannot change what is read of
   a byte that any write newer than its capture covers while that write is unhandled or remembered, and a write is
   remembered exactly while fewer than the ring's capacity of ordinary writes have been handled after it. The
   bound matters: for every capacity `Witnesses.EvictionLosesNewerWrite` builds a run, with the scanner's own
   flags and captures, in which an old punch erases a newer acknowledged write.
3. **Sampled reads** (`Reads.SampledRead`). `ReadAt` reads the image before it takes the lock and still returns
   the view at lock time, unless a release or punch in between touches the range.
   `Witnesses.SampledReadGoesStale` shows that the condition cannot be dropped.
4. **Split independence** (`ScanRuns.DetectionIgnoresSplits`, `ScanRuns.EmissionLossless`). However a stream is
   cut into contiguous writes, MPEG-TS is reported from the first write on with which the stream so far holds
   ten packets in a row, at the leftmost such position; from there on a valid stream is emitted byte for byte,
   once, at its physical address, with less than a packet left over. Over any writes at all: a write is flagged if
   and only if the run it continues, with its own bytes, or else its own bytes hold ten packets in a row
   (`SniffedRuns.FlaggedIff`); the broadcasts are one for one the bytes at the captures
   (`SniffedRuns.BroadcastsAreCaptures`); ten packets in a row are never passed over, however damaged the stream is
   in front of them (`SniffedRuns.EveryWindowIsCaptured`); and a run that is valid from its first window on is
   broadcast whole (`SniffedRuns.ValidRunsAreBroadcastWhole`).
5. **Incremental equals full** (`Tracker.IncrementalEqualsRescan`, `Tracker.CarefulRunsAgree`). Every read of an
   observation is a step of its own and may return any bytes, and host writes are staged and judged between any two
   of them. Once all is at rest, rescanning the whole `$MFT` from record 0 gives the same layout, records and data
   ranges exactly when the missed records agree with the disk. A record is missed in two ways: a write that touches
   it is judged by the old `$MFT` ranges, and rejected, after the record was scanned as part of a new tail and
   before that tail is published; or a read returns other bytes for it than the disk holds and no write is due to
   it. When neither happens the rescan changes nothing. A read of a record is as the disk has it if none of its
   bytes is released or punched between the sample and the lock (`TrackerReads.UndisturbedReadIsNotStale`). Both
   ways do happen: `TrackerWitnesses.WriteBetweenScanAndPublish` and `TrackerWitnesses.ReadFromBeforeTheWrite` are
   such runs, and `Witnesses.ObservedReadGoesStale` is a run of the writer that makes such a read. The steps of one
   observation have together the effect that `ObserveMFTWrite` ensures (`Observation.ObservationIsObserved`). Told by
   the bytes alone: at rest a record that was not missed and decodes is remembered if and only if it is in use
   (`TrackerRecords.RecordsAtRest`), and the data ranges hold exactly the bytes that the disk's own file records
   claim (`TrackerRecords.DataRangesAtRest`).
6. **Runlists** (`Runlist.DecodesExactlyEncodings`). The decoder accepts exactly the terminated encodings whose
   cluster numbers fit, and returns what they mean, whatever field widths they use and whatever follows.
7. **The join** (`Reconciling.Reconciler.Reconcile`). After every event, each byte that lies in a remembered
   capture and in the known data ranges has been offered for punching under that capture's number, and every
   offer of a run lies inside one capture and inside the data ranges known at its event.
8. **Broadcasts** (`Hub.ClientsSeeSubsequences`, `Hub.NothingIsLost`, `Sniffing.ClientsReceivePackets`). Whatever the
   three queues drop, each client receives an order-preserving, duplicate-free subsequence of the broadcasts, and
   every item is 1 to 128 whole valid packets. As long as no full queue drops an entry, nothing is lost on its way
   to a registered client.
9. **Captures** (`Captured.CapturedBytesAreLatestIff`). Each captured byte is from a write of the scanner's current
   run, and that write is the latest over it if and only if no unrelated write has covered the byte since. One may:
   for every capacity `Witnesses.CaptureErasesOrdinaryData` builds a run in which the punch of a capture erases
   ordinary data that overwrote the captured bytes before they were emitted.

## Where the code and its comments differ

The model follows the code.

- `pipeline.go:126-152`: the comment says that a refused punch is submitted again by a later reconciliation.
  Nothing does that; only ranges that were not known before are offered.
- `pipeline.go:207-217`: the comment speaks of the writer and the sniffer, but writes go to the sniffer only,
  and to the writer and the reconciler once the sniffer has returned them.
- `ntfs.go:237`: after record 0 has been refreshed, the records touched under the new layout are ranged over
  by their position in a list instead of by their number, so the first so many records are refreshed in their
  place. `Ntfs.NTFS.ObserveMFTWrite` states this effect, `Observation.AgreesAfterwardsIff` says exactly which
  records agree with their bytes afterwards, and `TrackerWitnesses.MovedRecordStaysStale` is an input for which a
  touched record does not.
- `ntfs.go:103-142` and `ntfs.go:1473-1487`: an `$MFT` smaller than one record is accepted, but its scan ends
  before the range lists are built, so no write to it is noticed. `Ntfs.NTFS.NewNTFS` says exactly when the
  published ranges are right, and `Ntfs.HalfRecordUnwatched` is such a volume.

## Model

| member | source | states |
|---|---|---|
| Sorting.SortSorts | shm.go:519-528 | Sorting by start, then end, yields the same elements in order; the extent code and the range code both rely on it |
| Ranges.CoalesceByteRanges | ntfs.go:1648-1695 | The result is sorted with strict gaps and holds exactly the bytes of the input, whatever its order, overlaps and empty ranges |
| Ranges.CanonicalUnique | ntfs.go:1648-1695 | Two sorted lists with strict gaps that hold the same bytes are the same list, so coalescing has only one right answer |
| Ranges.SubtractRanges | ntfs.go:1579-1646 | The two-pointer scan returns exactly the set difference of two sorted disjoint lists, as a list with strict gaps |
| Ranges.RangesOverlapSnapshot | ntfs.go:171-190 | The binary search is true exactly when some byte of the query lies in the list |
| Ring.Push | writer.go:399-418 | Overwriting the head slot of the array and advancing head and count drops the oldest entry of a full ring and appends the new one |
| Overlay.CoalesceSHM | shm.go:512-556 | From extents in any order, some possibly empty, no two of which share a byte, yields a sorted list without empty extents or mergeable neighbours that gives every byte the same generation |
| Overlay.ExtentsUnique | shm.go:512-556 | A sorted coalesced extent list is the only one for its byte-to-generation map |
| Overlay.SHMDisk.constructor | shm.go:48-97 | A new overlay owns nothing, is all zero, and starts with generation 1 |
| Overlay.SHMDisk.StageWrite | shm.go:103-156 | Accepts the bytes under a new generation, which then owns exactly that range, or reports which check failed and changes nothing |
| Overlay.SHMDisk.ReplaceRangeLocked | shm.go:342-409 | A pointwise overwrite of the byte-to-generation map; the list stays sorted, disjoint, non-empty per extent and coalesced |
| Overlay.SHMDisk.RemoveRangeGenerationLocked | shm.go:411-455 | A pointwise delete of one generation from a range |
| Overlay.SHMDisk.CoversGenerationLocked | shm.go:314-340 | True exactly when every byte of the extent has that generation |
| Overlay.SHMDisk.ReleaseExtent | shm.go:262-309 | Zeroes and gives up one extent if its generation still owns all of it; changes nothing otherwise or when the punch fails |
| Overlay.SHMDisk.ReleaseIfCurrent | shm.go:253-312 | Releases the planned extents one by one, goes on after a failure, and reports the first |
| Overlay.ReleaseAllMeans | shm.go:253-312 | Whatever the list of extents, a byte changes only when an extent of the generation that owns it is given back, and is then zero and nobody's; afterwards no extent whose punch succeeds is still wholly its generation's; the error is the closed one exactly when the overlay is closed and some extent is not empty, and there is none when it is open and every punch succeeds |
| Overlay.SHMDisk.ReadAt | shm.go:158-251 | Every byte comes from the overlay where an extent covers it and otherwise from the image; the error cases in their order |
| Overlay.SHMDisk.ReadExtents | shm.go:200-250 | The locked half replaces exactly the owned bytes of a buffer that was filled earlier |
| Overlay.SHMDisk.Close | shm.go:473-510 | A closed overlay owns nothing |
| Disk.StageKeeps | shm.go:103-156 | Staging changes what is read exactly on the written range, and overlay bytes outside all extents stay zero |
| Disk.ReleaseKeeps | shm.go:253-312 | Releasing keeps generations below the next one and overlay bytes outside all extents zero |
| Writing.Writer.RememberWrite | writer.go:399-418 | The history becomes the newest capacity-many records with the new one last |
| Writing.Writer.HasNewerOverlap | writer.go:420-446 | The scan of the ring is true exactly when some remembered write is newer and overlaps |
| Writing.Writer.WriteImage | writer.go:300-326 | The image file takes a prefix of the bytes; nothing else changes |
| Writing.Writer.ReleaseStaged | writer.go:328-338 | Releases the one staged extent of the write, if its generation is still current |
| Writing.Writer.ProcessWrite | writer.go:263-339 | Remembers, persists, then releases; MPEG-TS is only released; a write that fails keeps its overlay extent |
| Writing.Writer.ProcessPunch | writer.go:341-397 | Zeroes the image range unless it is empty, a remembered newer write touches it, or the file refuses |
| Writing.AfterWriteMeans | writer.go:263-339 | A handled write byte by byte: the image holds what it took of an ordinary write and the history its record, captured MPEG-TS leaves both alone, and the overlay gives up the write's extent exactly when all its bytes are still its own, the write went through and the punch succeeds |
| Writing.AfterPunchMeans | writer.go:341-397 | A punch byte by byte: zero on its range of the image unless a remembered newer write overlaps it or the file refuses, and nothing else changes |
| Pipeline.DispatchKeeps | pipeline.go:229-249 | The dispatch loop sends the write and every pending one that is then next in line, loses and invents nothing, and stops only where a number is missing |
| Pipeline.ArrivalsAreSentOrPending | pipeline.go:192-250 | For every arrival order of distinct numbers, what was sent is numbered 1, 2, 3 and so on, sent and pending together are exactly the arrivals, and the next number has not arrived |
| Pipeline.ArrivalOrderIrrelevant | pipeline.go:192-250 | The dispatcher's state depends only on which writes have arrived, not on their order |
| Pipeline.AllArrivedAllSent | pipeline.go:192-250 | Once writes 1 to n have all arrived, all have been sent and nothing is pending |
| Pipeline.WritePipeline.AcceptWrite | pipeline.go:222-250 | The loop over the pending map does what the dispatcher function says, and records the last number dispatched |
| Pipeline.WritePipeline.SubmitWrite | pipeline.go:91-124 | Puts the write in the channel unless the pipeline is closing |
| Pipeline.WritePipeline.Forward | pipeline.go:303-316 | One observed write goes to the writer and to the reconciler, and sets the dispatched number to its own |
| FuseDisk.DiskNode.Write | fuse.go:142-263 | Which error each write gets, or none, by its offset, length and the state of overlay and pipeline; a refused or empty write changes nothing; any other is read back at once, numbered next, flagged exactly when it touches a byte of the published $MFT ranges (of the $MFT itself where those are current), and submitted once; a closing pipeline turns it into an I/O error after staging |
| Protocol.DiskNext | shm.go:103-312 | No step changes the disk's size, and none leaves a non-zero overlay byte outside all extents |
| Protocol.SoundNext | pipeline.go:192-316 | Every step keeps generation order equal to sequence order, every acknowledged write in exactly one place on its way, and each stage a prefix of the one before it |
| Protocol.SentIsAcked | pipeline.go:222-250 | The dispatched list is a prefix of the acknowledged writes |
| Reads.GuardSees | writer.go:420-446 | A punch over a byte of a remembered newer write is always noticed |
| Reads.InvNext | writer.go:263-397 | Every step keeps the invariant: a byte is owned by its latest write's generation or by nobody, and an unowned byte has had that write handled and holds its data unless it was MPEG-TS or punched away |
| Reads.ReachableInv | writer.go:157-244 | The invariant holds in every state that any sequence of steps reaches from the original image |
| Reads.ReadsExactly | shm.go:158-251 | In every reachable state, for every byte: one that an extent holds reads as its latest acknowledged write, whose generation owns it; any other, whose latest write has been handled, as the last ordinary data that reached the image, the original image, or zero after a later punch |
| Reads.ReadsLatest | shm.go:158-251 | In every reachable state a read returns the latest acknowledged write covering the byte, the original image if there is none, or zero exactly where a punch took it; except that nothing is said of a byte whose latest write is MPEG-TS and released. Unhandled writes are owned by their own generation |
| Reads.ImageNext | writer.go:263-397 | Every step keeps the image what the persisted prefixes of ordinary writes and the punches, in their order, make of the original |
| Reads.ReadsBack | shm.go:158-251 | Without a punch of an equally new capture and while remembered by every later punch, a write that is unhandled or not MPEG-TS is read back |
| Reads.PunchKeepsNewer | writer.go:341-397 | In every reachable state a delayed punch leaves what is read of a byte unchanged when any write newer than its capture covers the byte and is unhandled or remembered, whatever was written over it later |
| Reads.RememberedExactly | writer.go:399-446 | A write is in the history exactly when it was handled, was not MPEG-TS, and fewer than capacity many such writes were handled after it |
| Reads.SampledRead | shm.go:179-250 | A read that takes the image early and the lock late returns the view at lock time if no release or punch in between touches it, whatever else happens |
| Reads.StagesSeePrefixes | pipeline.go:303-316 | In every reachable state the reconciler has seen a prefix of what the writer has, that is a prefix of the dispatched list, that is the acknowledged writes in order, and nothing is pending when nothing is in flight |
| Releases.LetGoMeans | shm.go:262-309 | In every sound state a release uncovers the image on exactly the range of the write at hand if that write still holds all of it, and changes nothing otherwise or when it fails |
| Releases.ReleasedForGood | shm.go:253-312 | In every run: once the release of a handled write has gone through, that write never again holds all of its range in the overlay |
| Witnesses.EvictionLosesNewerWrite | writer.go:341-446 | For every capacity some run, all of whose flags and captures are the scanner's, lets the punch of the capture of ten packets zero a byte of newer ordinary data that further writes have pushed out of the history |
| Witnesses.SampledReadGoesStale | shm.go:179-250 | A release between the sample and the lock makes a read return the byte from before an acknowledged write |
| Witnesses.ObservedReadGoesStale | shm.go:179-250 | The writer persists and releases a write that the reconciler has been given, between the sample and the lock of a read of its bytes: the read returns the disk from before the write, which the host sees all the time |
| Witnesses.CaptureErasesOrdinaryData | writer.go:420-446 | For every capacity some run, all of whose flags and captures are the scanner's, lets the punch of a capture erase ordinary data written over the captured bytes while the scanner still kept them |
| Scanner.FindMPEGTS | mpegts.go:344-381 | The search that skips positions without a sync byte finds exactly the leftmost ten-packet window, which lies inside the data |
| Scanner.FindIsLeftmost | mpegts.go:344-381 | What is found is a window, and no earlier position is one |
| Scanner.TSScanner.Reset | mpegts.go:68-79 | A reset scanner is undetected, empty, and expects the given offset |
| Scanner.TSScanner.Feed | mpegts.go:81-184 | The whole state, the chunks and the flag after a write, for empty, contiguous, unexpected and unrelated writes; which writes are flagged, by their bytes, is `SniffedRuns.FlaggedIff` |
| Scanner.TSScanner.FeedCandidate | mpegts.go:137-184 | The same for a scanner that has not detected MPEG-TS |
| Scanner.TSScanner.KeepTail | mpegts.go:186-203 | The last 1879 bytes are kept and the start address moves with them |
| Scanner.TSScanner.Emit | mpegts.go:205-321 | The loop ends, emits what repeatedly cutting whole packets off says, and never meets a head with no valid packet |
| Scanner.TSScanner.CountValid | mpegts.go:241-270 | The next chunk is the leading valid packets, at least one after a valid head and inside the buffer |
| ScanRuns.EmitAllOK | mpegts.go:205-321 | Emission leaves fewer than 1880 bytes, its chunks are 1 to 128 whole valid packets at the address they were buffered at, in order and without overlap |
| ScanRuns.FeedTracks | mpegts.go:81-321 | Every write keeps the buffer the last bytes of the current contiguous run, ending where the next write is expected and at most 1879 long, and all chunks are bytes fed at their physical address |
| ScanRuns.UnexpectedWriteResets | mpegts.go:137-160 | An undetected scanner treats an unexpected write like a scanner just reset to it |
| ScanRuns.TailDropsRuledOut | mpegts.go:186-203 | The positions that keepTail drops can start no window, whatever follows |
| ScanRuns.FindStays | mpegts.go:344-381 | A stream's first window stays the first when more data arrives |
| ScanRuns.DetectionIgnoresSplits | mpegts.go:81-203 | For every splitting into contiguous writes, a write is reported as MPEG-TS exactly when the stream so far contains a window, found where a search of the whole stream finds it |
| ScanRuns.EmissionLossless | mpegts.go:89-321 | If the stream is valid from its first window on, then for every splitting the emitted data is its longest whole-packet prefix, without gaps, at its addresses, and fewer than 188 bytes are left |
| ScanRuns.ChunksAreFull | mpegts.go:241-299 | A chunk has 128 packets, or no whole valid packet follows it in the buffer |
| ScanRuns.FeedAccounts | mpegts.go:81-321 | Every write keeps each byte of the current run either emitted, still buffered, or unable to start a window |
| Sniffing.Sniffer.Sniff | sniffer.go:63-102 | One write is scanned, its chunks broadcast in order, and passed on with its flag and captures; which these are, by the bytes written, is `SniffedRuns.BroadcastsAreCaptures` and `SniffedRuns.EveryWindowIsCaptured` |
| Sniffing.Sniffer.Run | sniffer.go:60-103 | The loop over the channel does so for every write in order |
| Sniffing.SniffedInOrder | sniffer.go:60-103 | The output is the input in order, one for one, and every capture bears its write's number |
| SniffedRuns.FlaggedIff | mpegts.go:81-184 | After any writes, a write is flagged if and only if the run it continues, with its bytes, or else its own bytes alone hold a window; a write that yields a capture is flagged |
| SniffedRuns.BroadcastsAreCaptures | sniffer.go:69-93 | After any writes, the broadcasts are, one for one and in order, the bytes that some write up to then put at the addresses of the captures, each bearing that write's number |
| SniffedRuns.EveryWindowIsCaptured | mpegts.go:186-321 | However the writes came, the first byte of every window of every run they formed is inside some capture |
| SniffedRuns.ValidRunsAreBroadcastWhole | sniffer.go:60-103 | If the run that the writes end in is valid from its first window on, the last broadcasts joined are its longest whole-packet prefix from there, and their captures tile exactly its addresses |
| SniffedRuns.StreamIsBroadcastWhole | sniffer.go:60-103 | The same of all broadcasts and captures of contiguous writes to a fresh sniffer |
| Sniffing.ChunksGenuine | sniffer.go:63-93 | Every chunk is whole packets, and each of its bytes was put at its address by one of the writes so far |
| Captured.SourcesAreRight | mpegts.go:81-184 | Every byte of the current run is from a known write of it, and of the later writes only unrelated ones cover it |
| Captured.CapturedBytesAreLatestIff | sniffer.go:63-93 | A captured byte is its source's, which is the latest write there if and only if no unrelated write has covered it since; otherwise the latest write is unflagged and not newer than the capture |
| Sniffing.PayloadsArePackets | mpegts.go:241-299 | Every broadcast of every run is 1 to 128 whole valid packets |
| Sniffing.ClientsReceivePackets | hub.go:158-210 | With the sniffer's broadcasts, everything a client receives is 1 to 128 whole valid packets, in broadcast order and never twice |
| Hub.Hub.Broadcast | hub.go:55-84 | With a single producer the queue ends as the newest entries with the new one last; empty data is ignored |
| Hub.Hub.Dispatch | hub.go:158-182 | Every registered client's inbox ends as its newest entries with the new one last, in whatever order the clients are visited |
| Hub.Client.Drain | hub.go:184-210 | The oldest inbox entry becomes the last of the output, which drops its oldest when full |
| Hub.HubInvNext | hub.go:55-210 | Every interleaving of the single channel operations of Broadcast, dispatch, drain, registration and readers keeps what is on its way to each client in broadcast order |
| Hub.ClientsSeeSubsequences | hub.go:55-210 | Whatever is dropped, each client receives an order-preserving, duplicate-free subsequence of the broadcasts; a broadcast that has made room is enqueued and never lost, and so is a dispatched entry |
| Hub.DeliveredKeeps | hub.go:158-210 | Whatever holds of every broadcast holds of everything a client receives |
| Hub.NothingIsLost | hub.go:55-210 | In every run whose drop steps find nothing to drop on the way to a registered client, what was on its way and every broadcast since, complete and in order, is what the client has received and what is still on its way |
| Hub.BlocksOnlyWhenFull | hub.go:55-210 | A stage starts to make room only in a queue that it found full |
| Runlist.SignedUnsigned | ntfs.go:619-639 | Two's complement in a field of 1 to 8 bytes and back |
| Runlist.ReadLE | ntfs.go:581-617 | The byte loop computes the little-endian value |
| Runlist.ParseNTFSRunlist | ntfs.go:540-665 | The loop agrees with the recursive decoder on every input, including which error it reports and 64-bit wrap-around |
| Runlist.DecodeEncoded | ntfs.go:540-665 | Decoding any encoding, with any sufficient field widths, signed deltas, sparse runs, a terminator and arbitrary trailing bytes, returns the encoded runs |
| Runlist.AcceptedIsEncoded | ntfs.go:540-665 | Whatever is accepted is the encoding of the pairs read followed by a zero byte, and the result is what they mean |
| Runlist.DecodesExactlyEncodings | ntfs.go:540-665 | Both directions: the decoder returns some runs exactly when the data is a terminated encoding of them |
| Runlist.AcceptedIsChained | ntfs.go:540-665 | Accepted runs have positive lengths, follow each other in VCN, and have non-negative LCNs when mapped |
| Fixup.ApplyNTFSFixup | ntfs.go:667-733 | By the header's bytes, exactly when the sector size, the geometry or the array's offset and length are refused, which changes nothing; otherwise the record becomes what restoring the trailers in turn makes of it, byte by byte even where the array overlaps a trailer; with the array in front of the first trailer it is accepted exactly when every trailer carries the update sequence number, and then each trailer is its pair of the array and no other byte has changed |
| Fixup.ProtectedIsRestored | ntfs.go:667-733 | A protected record whose header names an array at any offset from 8 on, with a pair for each sector and one more, that ends before the first trailer, is accepted and given back outside the array |
| Fixup.FixedBytes | ntfs.go:711-732 | With the array in the first sector, success and the restored record by sector and byte number |
| Fixup.RestoreTrailers | ntfs.go:711-732 | The loop over the sectors checks and restores one after the other on the record as it then is |
| Fixup.FixSucceedsIff | ntfs.go:713-730 | With the array in the first sector the fixup succeeds exactly when every trailer carries the update sequence number |
| Fixup.FixupUndoesProtection | ntfs.go:667-733 | Fixing up a record whose trailers were swapped out gives back every byte of it but the array itself |
| MFTMap.ReadMFTLogical | ntfs.go:991-1080 | The loop over runs, in 64-bit arithmetic that does not wrap, returns what reading run by run says, or fails where that fails |
| MFTMap.ReadRunsIsBytewise | ntfs.go:1012-1080 | Through contiguous runs, reading returns every byte from where it is mapped, and fails exactly when one is unmapped or off the disk |
| MFTMap.PhysicalIsTheMap | ntfs.go:1012-1050 | Contiguous runs map each logical byte to at most one place, the one the first matching run gives |
| MFTMap.Unwrapped | ntfs.go:1018-1051 | Where a run's byte offsets fit 64 bits, the program's products and sums are exact |
| MFTMap.ChainedIsContiguous | ntfs.go:540-665 | An accepted runlist is contiguous as long as its VCNs stay below 2 to the 64 |
| MFTIndex.MFTRecordIDsForPhysicalRange | ntfs.go:1122-1196 | In 64-bit arithmetic that does not wrap, returns exactly the touched records, and whether record 0 is one |
| MFTIndex.TouchesRecordMeans | ntfs.go:1122-1196 | A record is touched exactly when some logical byte of it maps through a non-sparse run into the physical range |
| MFTIndex.BuildMFTRanges | ntfs.go:1383-1437 | In 64-bit arithmetic that does not wrap, a list with strict gaps that holds exactly the physical ranges of the first mftSize bytes of the runs |
| MFTIndex.RangesAreOccupied | ntfs.go:1383-1437 | For contiguous runs from VCN 0 those are exactly the physical bytes that a read below mftSize can return |
| MFTIndex.MissedWriteUnread | ntfs.go:144-190 | A write to no such byte changes nothing that can be read below mftSize |
| FileRanges.BuildDataRanges | ntfs.go:1256-1334 | Where no product wraps, byte x is in the record's ranges if and only if its base record is at least 16, it is no directory, and some run in the volume of some unnamed, nonresident, plain $DATA attribute maps a logical byte below the real size to x; always inside the partition |
| FileRanges.RunRangeMeans | ntfs.go:1286-1332 | Where its products do not wrap, a run that starts in the volume and whose part below the file size lies in the partition has exactly the image of its logical bytes below that size as its range, and any other run has none |
| FileRanges.DataRangesMean | ntfs.go:1256-1334 | The same of the ranges as a function of the record and its attributes |
| FileRanges.AttributeRangesInPartition | ntfs.go:1256-1334 | No record claims a byte outside the partition, whatever its runs wrap to |
| FileRanges.CollectDataRanges | ntfs.go:1336-1381 | A list with strict gaps that holds exactly the bytes claimed by records of active user files |
| FileRanges.DataRangesUnique | ntfs.go:1336-1381 | There is only one such list, so the order of map iteration does not matter |
| FileRanges.DataRangesInPartition | ntfs.go:1336-1381 | Every data range lies in the partition |
| Ntfs.NTFS.constructor | ntfs.go:120-132 | Before the first scan there is a layout, no record and no range |
| Ntfs.NTFS.NewNTFS | ntfs.go:103-142 | Refuses exactly an empty $MFT and one of which a chunk cannot be read; otherwise holds what one scan yields, and the published $MFT ranges are right if and only if the $MFT has a whole record or occupies no byte |
| Ntfs.HalfRecordUnwatched | ntfs.go:1473-1487 | A volume with half a record of $MFT is accepted, and TouchesMFT is false for every write to it |
| Ntfs.HalfRecordByte | ntfs.go:1383-1437 | That $MFT does occupy a byte |
| Ntfs.NTFS.TouchesMFT | ntfs.go:144-159 | True exactly when the range contains a byte of the published list, and so of the $MFT itself where that list is current |
| Ntfs.NTFS.DataRanges | ntfs.go:161-169 | The published data ranges, all inside the partition |
| Ntfs.NTFS.PublishSnapshots | ntfs.go:1439-1456 | Both snapshots become the tracker's lists |
| Ntfs.NTFS.RebuildRanges | ntfs.go:1336-1381 | Both range lists belong to the current records and layout |
| Ntfs.NTFS.ReadRecord | ntfs.go:1082-1120 | What the record's bytes decode to; undecodable past the record count or where a read fails |
| Ntfs.CountMeans | ntfs.go:1570-1577 | The records counted are exactly those that start below the $MFT's size |
| Ntfs.NTFS.KeepRecord | ntfs.go:1237-1254 | An undecodable record changes nothing, one not in use is deleted, another is stored with its ranges; every remembered record stays in use and inside the partition |
| Ntfs.NTFS.RefreshRecord | ntfs.go:1198-1254 | Refreshes one record, and for record 0 first the $MFT's own runs and size from its first plain data attribute |
| Ntfs.NTFS.ScanMFTLogicalRange | ntfs.go:1473-1568 | Looks at every whole record of the range in 8 MiB chunks, each as the disk is when it is read, and then brings the range lists up to date; fails exactly when a chunk cannot be read, which ends the scan and leaves the lists alone, as an empty range does |
| Ntfs.NTFS.ScanChunk | ntfs.go:1516-1560 | The inner loop over one chunk |
| Ntfs.NTFS.RefreshTouched | ntfs.go:206-247 | Collects the touched records and refreshes record 0 at once if it is one |
| Ntfs.NTFS.ScanTail | ntfs.go:249-268 | Scans the new tail of a grown $MFT |
| Ntfs.NTFS.RefreshListed | ntfs.go:270-296 | One selected record is refreshed, or dropped if it lies past the record count |
| Ntfs.NTFS.RefreshAll | ntfs.go:270-296 | Refreshes each selected record and drops those past the record count, in whatever order they come |
| Ntfs.NTFS.ObserveMFTWrite | ntfs.go:192-306 | The whole new state after an observed write, record by record, each read of the disk finding it as it is at that time, and as result exactly the data bytes that were not known before |
| Tracker.ChunkEffect | ntfs.go:1489-1563 | On a fully mapped $MFT every chunk can be read, and each record in it becomes what its own bytes say |
| Tracker.ScanEffect | ntfs.go:1473-1568 | So a scan in chunks does this to each record in its range and touches no other |
| Tracker.FirstScanFresh | ntfs.go:103-142 | After the first scan, with the layout record 0 gives, every record agrees with its bytes |
| Tracker.UnflaggedTouchesNothing | ntfs.go:144-190 | A write that the published ranges reject touches no whole record of the published $MFT |
| Tracker.RejectedTouches | fuse.go:226-241 | A record that a rejected write does touch still has to be scanned, or is counted as missed |
| Tracker.StageKeeps | fuse.go:187-206 | Staging a write at any moment, also during an observation, keeps the invariant: a whole record differs from its bytes only while a write or read is due to it, or when it was missed, and the layout is record 0's unless a write to record 0 is due or record 0 was missed |
| Tracker.JudgeKeeps | fuse.go:226-241 | So does flagging it later by the ranges published then |
| Tracker.BeginKeeps | ntfs.go:206-247 | So does taking up the oldest flagged write and reading record 0, whatever the read returns, with a layout that stays or grows |
| Tracker.ScanKeeps | ntfs.go:1489-1563 | So does scanning one chunk of the new tail, whatever the read returns |
| Tracker.RefreshKeeps | ntfs.go:270-296 | So does refreshing one selected record, whatever the read returns |
| Tracker.PublishKeeps | ntfs.go:298-305 | So does publishing the new ranges |
| Tracker.IncrementalEqualsRescan | ntfs.go:192-306 | In every run, whatever its reads return, at rest: reloading the layout from record 0 and rescanning the whole $MFT changes nothing if and only if the missed records agree with the disk, undecodable records being kept; then the data ranges are the same, too |
| Tracker.CarefulRunsAgree | ntfs.go:192-306 | So it changes nothing in any run in which no rejected write touches records already scanned but not yet published and every read returns what the disk holds of the records no write is due to |
| TrackerRecords.StepRemembers | ntfs.go:192-306 | Every step forgets a record past the end, makes of a record it read what the bytes decode to, or leaves it: one not in use is not remembered, one in use is with the ranges of its attributes, an undecodable one is as before |
| TrackerRecords.HeldAsLastRead | ntfs.go:1198-1254 | In every run a record is held as the last read that decoded it, or that forgot it, left it, and otherwise as at the start |
| TrackerRecords.RunOnlyUsed | ntfs.go:1237-1254 | In every run from the first scan on, every remembered record is a whole one and in use |
| TrackerRecords.RecordsAtRest | ntfs.go:192-306 | At rest a whole record that was not missed and decodes is remembered if and only if it decodes to one in use, and then as that record with the ranges of its attributes; if it is record 0, the layout is that of its first plain $DATA attribute |
| TrackerRecords.DataRangesAtRest | ntfs.go:1336-1381 | At rest, in a run that misses nothing, where no product wraps and no record that stopped decoding is remembered, the data ranges hold exactly the bytes that records in use of active files own on the disk |
| TrackerRecords.ScanReadableIff | ntfs.go:1473-1568 | Through contiguous runs a scan can read every chunk exactly when every byte of the whole records in its range is mapped and on the disk |
| TrackerReads.UndisturbedReadIsNotStale | shm.go:179-250 | A read of a record does so if none of the record's bytes is released or punched between its sample and its lock, whatever else happens |
| Observation.ObservationIsObserved | ntfs.go:192-306 | From taking up a write to publishing, with any staging and judging in between, the steps leave the state that ObserveMFTWrite ensures for the bytes that each of their reads found |
| Observation.AgreesAfterwardsIff | ntfs.go:231-239 | Wherever records have moved, a whole record outside the new tail agrees with its bytes after an undisturbed observation if and only if it was touched under the old layout, is below the number of records touched under the new one, or decodes to what was remembered; record 0 likewise where moving has not changed it |
| TrackerWitnesses.WriteBetweenScanAndPublish | ntfs.go:249-300 | For every decoder that takes the named records for what they are: a run in which a write falls between the scan of the new tail and its publication, and at rest a rescan finds a record that the tracker lacks |
| TrackerWitnesses.ReadFromBeforeTheWrite | ntfs.go:270-296 | Likewise a run in which the refresh of a record reads the bytes from before the very write that is observed |
| TrackerWitnesses.MovedRecordStaysStale | ntfs.go:231-239 | For every decoder: a write that moves record 2 and puts other contents in its new place leaves record 2 as it was, because records 0 and 1 are refreshed instead |
| Reconciling.CaptureJournal.constructor | reconcile.go:10-15 | A new journal is empty |
| Reconciling.CaptureJournal.Add | reconcile.go:17-30 | The journal becomes its newest capacity-many captures with the new one last |
| Reconciling.CaptureJournal.ForOverlap | reconcile.go:32-62 | Visits exactly the remembered captures that overlap the range, oldest first |
| Reconciling.OverlappingIs | reconcile.go:32-62 | A capture is visited exactly when it is remembered and shares a byte with the range |
| Reconciling.Reconciler.SubmitPunch | reconcile.go:200-225 | A punch is offered unless it is empty |
| Reconciling.Reconciler.ReconcileCapture | reconcile.go:169-198 | Offers a capture's intersection with each data range |
| Reconciling.Reconciler.ReconcileRange | reconcile.go:139-165 | Offers each remembered capture's intersection with one new range |
| Reconciling.CaptureKeepsComplete | reconcile.go:114-117 | Joining a new capture with the known ranges keeps the join complete even where the journal forgets its oldest entry |
| Reconciling.RangesKeepComplete | reconcile.go:133-165 | Offering only what is new in the data ranges keeps the join complete, also when old ranges disappear |
| Reconciling.Reconciler.TakeCaptures | reconcile.go:114-117 | The journal takes in every capture of a write, newest last, and the join is complete again |
| Reconciling.Reconciler.Reconcile | reconcile.go:103-166 | After one event the journal holds its captures, a flagged write has been observed by the tracker, the join is complete, and every new offer lies inside one capture, bears its number, and lies inside the data ranges then known |
| Reconciling.Reconciler.Run | reconcile.go:100-167 | After any list of events the journal holds the newest of all their captures, the join is complete, no offer was withdrawn, and each offer lies inside one capture taken in by then and inside the data ranges known right before or after its event |

## Left out

- FUSE mounting, reading and attributes, HTTP, the USB gadget, the shell script, the partition table, logging
  and verbose output: plumbing, or reads with one branch.
- Flush and Fsync: a barrier goes straight to the writer while earlier writes may still be in the sniffer
  (`pipeline.go:260-281`), and `pipeline.go:316` can lower the dispatched number that barriers wait for. No
  durability is claimed.
- Shutdown and liveness: after the write channel closes the loop ends without draining the sniffer, and full
  channels can block each other. Channels are FIFO lists, channel capacities of the write pipeline are not
  modelled, and only safety is proved.
- Refused punches: `SubmitPunch` of the pipeline drops a request when its queue is full. The join is stated for
  punches offered, and the step machine lets any punch run at any time or never.
- Concurrent acknowledgements: they are serialised, as `fuse.go:79-91` asks for, so generation order is
  sequence order. Overlay operations are atomic under their lock; a read that is torn by an image write to the
  same bytes in progress is not modelled.
- Partial failures: an image write lands as a prefix; overlay writes and punches succeed fully or change
  nothing. The result of the overlay's removal from disk in `Close` is not part of this model.
- Reads.ReadsLatest: says nothing of a byte whose latest write is MPEG-TS and released, because the latest write
  is no longer what is read there; `Reads.ReadsExactly` says what is.
- That only MPEG-TS is dropped is not claimed: once detected, any contiguous write is flagged, as
  `SniffedRuns.FlaggedIff` says.
- Output after resynchronisation depends on how the stream was split, so losslessness is stated for streams
  that stay valid; of damaged ones it is only claimed that no window is passed over.
- An empty overlay at rest: a partly overwritten extent is never released (`shm.go:285-288`).
- Record decoding: attribute and record parsing, the boot sector and the record-size byte are left out. What a
  record's bytes decode to is a parameter, of which only this is used: its runs are not empty, as the runlist
  decoder guarantees. The first layout from record 0 (`ntfs.go:473-538`) is a parameter of `Ntfs.NTFS.NewNTFS`.
- $MFT relocation: `Tracker.BeginStep` assumes that the layout found stays contiguous and fully mapped and keeps the
  place of every byte below the old size. `Ntfs.NTFS.ObserveMFTWrite` and `Observation.AgreesAfterwardsIff` have no
  such assumption on where bytes stay.
- Whether a read of the tracker is disturbed is stated over one sample and one lock; a record or chunk that lies in
  several runs takes one of each per run. `Tracker` allows such a read to return any mixture.
- The disk as the tracker sees it changes only by host writes. Releasing an MPEG-TS-flagged write inside the $MFT,
  and a punch there, would change it without one, and are not modelled.
- Integer width: offsets are naturals. Wrap-around is written out in `Runlist` and `FileRanges`, where the
  program checks for it or lets it happen. In `MFTMap` and `MFTIndex` the program's 64-bit operations are written
  out too, but its loops are only specified where none of them wraps (`MFTMap.NoWrap`, `Ntfs.LayoutFits`): an
  $MFT whose own runs or size overflow 64-bit byte offsets is not modelled.
- Bit operations on bytes are written as arithmetic, sorting as an insertion sort: only its result is used.
- Fixup.ApplyNTFSFixup: does not model a sector size of 1, where the program would index before the record; a
  boot sector with one is not accepted.
- Ntfs.NTFS.TouchesMFT: the snapshot is the one last published; a write that loads it just before it is replaced
  is judged as if before, which `Tracker.JudgeStep` allows at any moment.
- Hub.Hub.Broadcast: stated for one producer, which the sniffer is. Closing the hub and its clients' done
  channels is not part of this model.
