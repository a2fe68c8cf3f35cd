# Verified model of the dnbd3 proxy

dnbd3 is a read-only network block device whose servers can act as caching proxies. A proxy answers a client from a
local copy of the image as far as its cache map says so, and relays everything else over one connection to an upstream
server, coalescing requests of many clients. These Dafny modules model that proxy and the parts around it, and prove
what the code relies on.

| module | part of the system |
|---|---|
| `Blocks` | sizes, rounding and bit positions of the cache map |
| `CacheMap` | the cache map: setting, clearing, completeness, the range check in front of a local read |
| `LocalFile` | the byte loops around the cache file: storing a reply, answering a client |
| `MapSave` | the write loop that saves the cache map |
| `ProxyCache` | runs of one proxied image: replies, clears, completion, saves, crashes, reads |
| `UplinkQueue`, `UplinkSlots` | the request queue of an uplink: what one call does to the slots, and the loops that do it |
| `UplinkSystem` | client threads, the uplink thread and the server as steps, one locked region each |
| `UplinkRuns` | every run: each request is in one place and answered exactly and at most once |
| `UplinkCoverage` | every run: no waiting request is left without a reply to come |
| `UplinkSending` | every run: what goes out upstream, and how often |
| `HashBlockSearch`, `Replication`, `ReplicationRuns` | background replication: the two searches and whole runs |
| `ProxyRing` | proxies that forward to each other in a cycle, and the hop count |
| `Crc32`, `CrcCheck`, `BlockCrc` | CRC-32 by tables and four bytes at a time; its check value on plain bytes; checksums of hash blocks |
| `ChunkedDecoder`, `ChunkedBuffer`, `ChunkedEncoder` | the resumable decoder of the chunked transfer coding (section 4.1 of RFC 7230), in place, and an encoder to measure it by |
| `RttHandshake` | the handshake between uplink threads and the thread that measures other servers |
| `ImageRefs` | reference counts of images and the image list |
| `AltServerList` | the list of alternative servers given to a client |
| `FuseQueue`, `FuseRuns` | the FUSE client's linked request list and its connection switches |

Code that updates state in place is a class or a method with loops, proved against a function or relation on values;
the protocol theorems are about runs: sequences of states in which each step is one region of code that holds its locks
throughout. Where the code drops a lock in the middle, the regions are separate steps.

Assumptions: the image on the origin never changes; the local file only changes through the steps shown (no disk
corruption); a server answers a block request with the handle and size of the request (src/server/net.c:397-399); the
virtual size of a proxied image is a positive multiple of 4096. A crash leaves every byte of a file with its value at
the last completed fsync or with one written since.

Where the code falls short of what its comments or a reader would expect, the model follows the code, and the exact
condition is proved:

- Removing a client whose request is NEW, or waits to be sent again, can strand the requests attached to it
  (`UplinkCoverage.RemovalStrandsIffDependents`, with a run that does so in `StrandedExample`).
- A short write of the map makes the next write start at byte 0 of the map again (src/server/uplink.c:1063). Every
  pattern of short writes saves the map exactly if and only if all its bytes are equal, and never claims a block the map
  lacks if and only if its bytes only gain bits from one to the next (`MapSave.AlwaysExactIffAllEqual`,
  `NeverClaimsMoreIffGrowing`). `ProxyCache.ShortSavesSafeIff` carries this to crashes, `ShortSaveExample` has a run.
- If the cache file is not open, the map is saved without a sync of the data (src/server/uplink.c:1019). That is safe
  exactly if disk and cache file agree on every cached block (`ProxyCache.UnsyncedSaveSafeIff`, with a run that does
  harm in `UnsyncedSaveExample`).
- The map file is unlinked before the data written last is synced (src/server/image.c:183-188). A crash in between is
  harmless exactly if all data is on disk (`ProxyCache.UnlinkedMapSafeIffSynced`, `CompleteSafeIffSynced`, `UnlinkBeforeFsyncExample`).
- The search for an incomplete hash block can answer an empty block that merely precedes an incomplete one
  (`HashBlockSearch.MixedUnlessCarriedOver`, `CarriedOverExample`). It answers the last map byte, asked for before,
  exactly if that byte is empty and alone in its hash block and byte 0 is the first that spoils its hash block, in a
  search that does not start there (`HashBlockSearch.LastByteAgainIff`; for a whole call `Replication.AskedAgainIff`;
  `LastByteAgainExample`). Without interference nothing else is asked for in vain.
- A request whose hop count cannot grow any more circles among three or more proxies: 200 or more hops, or 199 and a range not
  aligned to 4 KiB (`ProxyRing.BoundIffStoppable`).
- If the reply for the last map byte is stored only in part, full replication ends with the image incomplete. Taking a
  better server takes back the mark of the last byte but does not turn replication on again; that takes the next periodic
  check, a failed connection or a served client (`ReplicationRuns.LostLastExample`, `ReplicationEndsComplete`).
- A read that starts behind the end of an unpadded image file is not answered with zeros: the count of real bytes
  wraps around and the connection is closed (src/server/net.c:416-420, `LocalFile.SendPayload`, `ReadBehindEndExample`).

## Model

| member | source | states |
|---|---|---|
| Blocks.RoundedRange | src/server/image.c:79-87 | rounding a range inward names exactly the 4 KiB blocks that lie inside it, rounding outward exactly those it touches |
| Blocks.FullMapByte | src/server/image.c:158-165 | a map byte is 0xff exactly if all eight blocks it stands for are set |
| CacheMap.Image.UpdateCachemap | src/server/image.c:72-138 | setting caches exactly the blocks inside the range, clearing drops exactly the touched ones (recreating an all-ones map if there was none); a hash block that became complete is handed to the integrity checker exactly if it still is complete and the map still there when its turn comes, whatever other threads do while the lock is free |
| CacheMap.Image.UpdateBits | src/server/image.c:106-117 | exactly the bits of the range change; the flag tells whether a bit was newly set |
| CacheMap.HandOver | src/server/image.c:118-136 | hands over exactly the hash blocks of the range that are found complete in the map of their moment, until the map is gone |
| CacheMap.Undisturbed | src/server/image.c:118-136 | without other threads every check finds the map as the update left it, so every complete hash block is handed over |
| CacheMap.UpdatedCached | src/server/image.c:72-138 | effect of an update on what may be served, block by block |
| CacheMap.UpdatedMeans | src/server/image.c:79-117 | in bytes: a block becomes cached if its 4096 bytes lie in the stored range, and is dropped if it shares a byte with the cleared one |
| CacheMap.AllCachedMeans | src/server/image.c:158-178 | a map is complete exactly if it has a bit for every 4096 bytes begun |
| CacheMap.OthersComeIn | src/server/image.c:125-136 | behind a hash block that was handed over, what other threads made of the map meanwhile decides the checks |
| CacheMap.UpdatedUnique | src/server/image.c:72-138 | the described update determines the new map |
| CacheMap.NewlyCompleteMeets | src/server/image.c:118-136 | a hash block completed by an update meets the updated range, and the update set a new bit, so looking only at ranges with a new bit misses none |
| CacheMap.Image.IsComplete | src/server/image.c:146-189 | true exactly if the size is not zero and every block is cached; drops the map exactly then |
| CacheMap.MapComplete | src/server/image.c:158-178 | the scan by whole bytes and a mask for the last byte equals "every block is cached" |
| CacheMap.LastByteMask | src/server/image.c:168-176 | the mask has exactly the bits of the blocks that exist in the last map byte |
| CacheMap.IsHashBlockComplete | src/server/image.c:627-650 | the scan by bytes, or by bits for a short last hash block, equals "every block of the hash block is cached" |
| CacheMap.CompletenessNotionsAgree | src/server/image.h:57-61 | an image is complete exactly if each of its hash blocks is, and real and virtual size have the same number of hash blocks |
| CacheMap.Image.RangeCached | src/server/net.c:335-385 | the check of middle bytes, first byte and last byte is true exactly if every 4096-byte block touching the request is cached, for every non-empty range in the image |
| CacheMap.RunCached | src/server/net.c:343-384 | the same for an aligned run of map bits |
| CacheMap.ThreePhases | src/server/net.c:346-383 | a run of bits is set exactly if its part in the first byte, the whole bytes between and its part in the last byte are |
| LocalFile.StoreReply | src/server/uplink.c:796-833 | whatever pwrite returns, a prefix of the payload is in the file and exactly the blocks inside that prefix become cached |
| LocalFile.WriteAll | src/server/uplink.c:794-826 | writes all unless one of the calls it used fails, writes nothing, meets an error that is not cured, or a second one; it ends at the first such call, with what the calls before it wrote; one cured error is retried |
| LocalFile.SendPayload | src/server/net.c:415-475 | a non-empty answer goes out exactly if it does not start behind the end of the file, and then is the zero-padded image's range for any sequence of short sends |
| LocalFile.ReadBehindEndExample | src/server/net.c:416-420 | one byte behind the end of a file of one byte gets no answer, although the padded image has a zero there |
| MapSave.SaveMap | src/server/uplink.c:1061-1074 | what the write loop leaves in the map file for any sequence of short writes, interruptions and errors |
| MapSave.ErrorEndsTheLoop | src/server/uplink.c:1062-1074 | nothing behind the bytes written before the first error changes in the file |
| MapSave.AlwaysExactIffAllEqual | src/server/uplink.c:1061-1074 | every pattern of short writes saves the map exactly if and only if all bytes of the map are equal |
| MapSave.NeverClaimsMoreIffGrowing | src/server/uplink.c:1061-1074 | whatever the write calls do, the file claims no block that the map lacks if and only if each byte of the map has the bits of every byte before it |
| MapSave.SingleCallSaves | src/server/uplink.c:1061-1074 | one full write saves the map; a map of two bytes written in two calls gains a bit nobody set |
| ProxyCache.StepPreserves | src/server/uplink.c:789-833 | every step of a proxied image keeps: cached blocks equal the origin's, the saved map names only synced blocks, reads in progress carry the origin's bytes |
| ProxyCache.ProxyReadsRefineOrigin | src/server/net.c:335-475 | in every run each local answer is the origin's bytes, each cached block equals the origin's, and a NULL map means the whole file does; runs contain saves with any write results as long as one call writes or the map's bytes only gain bits |
| ProxyCache.LocalAnswerExample | src/server/net.c:335-475 | a run in which a block is received and a client is answered from the local file |
| ProxyCache.CheckedRangeRight | src/server/net.c:335-385 | a range that passes the check holds only the origin's bytes |
| ProxyCache.CrashRecovers | src/server/image.c:942-960 | loading after a crash, with a map file mixed from old and new bytes or cut short, gives back the invariant |
| ProxyCache.SavedMapIsCrashSafe | src/server/uplink.c:1015-1081 | wherever such a run stops, each bit loaded afterwards names a block whose data was on disk |
| ProxyCache.ShortSavesSafeIff | src/server/uplink.c:1061-1080 | whatever the write calls do, the saved map only names blocks on disk exactly if each block is on disk that lies at or behind a cached one by a multiple of eight |
| ProxyCache.ShortSavesSafeIffGrowing | src/server/uplink.c:1061-1080 | when the disk holds only the blocks of the map, exactly if the bytes of the map only gain bits |
| ProxyCache.ShortSaveExample | src/server/uplink.c:1061-1080 | a run with a short write and a crash after which block 8 counts as cached with its old content |
| ProxyCache.UnsyncedSaveSafeIff | src/server/uplink.c:1019-1030 | a save without syncing the data is safe exactly if disk and cache file agree on every cached block |
| ProxyCache.UnsyncedSaveExample | src/server/uplink.c:1019-1030 | a run with such a save and a crash that ends with a cached block of wrong content |
| ProxyCache.UnlinkedMapSafeIffSynced | src/server/image.c:183-188 | after the unlink every crash is harmless exactly if all data is on disk |
| ProxyCache.CompleteSafeIffSynced | src/server/image.c:183-188 | for a complete image, exactly if everything written has been synced |
| ProxyCache.UnlinkBeforeFsyncExample | src/server/image.c:183-188 | a run after which a crash brings back old content in a file taken for complete |
| ProxyCache.InvMeaning | src/server/image.c:146-189 | the invariant in terms of file contents |
| UplinkQueue.EnqueuedWellFormed | src/server/uplink.c:235-266 | a request goes into a free slot; slots are FREE exactly without a client and above the queue length |
| UplinkQueue.RemovedWellFormed | src/server/uplink.c:151-162 | removing a client keeps that |
| UplinkQueue.LoopIsNoticed | src/server/uplink.c:206-226 | an equal request that took fewer hops makes the new one rejected or attached |
| UplinkQueue.AttachesMeans | src/server/uplink.c:208-249 | a request attaches exactly if its range lies in that of a NEW request, or of a PENDING one above the first FREE slot |
| UplinkQueue.RejectsMeans | src/server/uplink.c:208-233 | only a waiting request for the same range with fewer hops turns a request away, and always if it lies below every FREE slot |
| UplinkQueue.FullMeans | src/server/uplink.c:235-242 | the queue is full exactly if 1500 slots are in use and none below is FREE |
| UplinkSlots.RequestSlots.constructor | src/server/uplink.c:54-85 | a new queue is empty and well formed |
| UplinkSlots.RequestSlots.Request | src/server/uplink.c:168-271 | refuses exactly requests over the payload limit, without a running uplink, or from the upstream host itself; else the outcome of the queue |
| UplinkSlots.RequestSlots.Enqueue | src/server/uplink.c:208-271 | a request inside a NEW one, or inside a PENDING one above a FREE slot, never goes out on its own; only the same range waiting with fewer hops turns it away; the first FREE slot is filled, PENDING if attached, else NEW |
| UplinkSlots.RequestSlots.RemoveClient | src/server/uplink.c:151-162 | frees exactly the client's slots and trims the length past trailing free slots |
| UplinkSlots.RequestSlots.Sweep | src/server/uplink.c:154-160 | its downward loop frees and trims in one pass |
| UplinkSlots.RequestSlots.Mark | src/server/uplink.c:837-846 | exactly the open slots inside the reply become PROCESSING |
| UplinkSlots.RequestSlots.DeliverTurn | src/server/uplink.c:852-884 | frees and hands out exactly a PROCESSING slot, else only shortens the queue past a free last slot |
| UplinkSlots.RequestSlots.DirectMark | src/server/uplink.c:291-299 | a NEW request becomes PENDING exactly if the slot still has its handle and client |
| UplinkSlots.RequestSlots.PickNext | src/server/uplink.c:585-605 | picks the first slot that is NEW, or PENDING unless only NEW ones are wanted, and computes the smallest run of 4 KiB blocks around its range |
| UplinkSlots.ScanStops | src/server/uplink.c:207-226 | stopping the scan early at an attachable slot agrees with the full specification |
| UplinkSlots.ScanEnds | src/server/uplink.c:207-259 | so does a scan that runs to the end |
| UplinkRuns.StepInv | src/server/uplink.c:151-885 | every step keeps the agreement of slots, accepted requests and answers |
| UplinkRuns.DeliveryIsExactAndAtMostOnce | src/server/uplink.c:837-885 | in every run each request is answered at most once, with its own handle and exactly its bytes; each accepted request is queued, answered or dropped with its client, and only one of these |
| UplinkRuns.ReceiveAssertsHold | src/server/uplink.c:838-856 | no PROCESSING slot survives a receive pass, open slots have clients, only slots inside the reply are served, also with requests and removals while the lock is dropped |
| UplinkRuns.ReplyAnswersAll | src/server/uplink.c:837-885 | when a reply has been worked off, every request waiting inside it is answered unless its client left |
| UplinkSending.PickSends | src/server/uplink.c:590-611 | a turn ends the pass with no NEW slot left, or sends one that is NEW, or PENDING only behind a server switch |
| UplinkSending.SignalSendsNewOnly | src/server/uplink.c:420-426 | in every run a pass begun by a signal sends no slot that is PENDING |
| UplinkSending.SignalsSendOnce | src/server/uplink.c:590-594 | in every run no two signalled passes send the same request |
| UplinkSending.CoalescedIsNotSent | src/server/uplink.c:208-271 | a request inside a NEW one is PENDING from the start and not sent by its client |
| UplinkSending.LoneRequestIsSent | src/server/uplink.c:249-290 | a request inside no waiting one is NEW and left to its client to send |
| UplinkSending.OneReplyAnswersBoth | src/server/uplink.c:834-882 | a run in which one range goes out and its reply answers two clients |
| UplinkCoverage.NoStrandedRequest | src/server/uplink.c:235-271 | on a usable connection every NEW or PENDING request lies in a range in flight or in a slot still to be sent, in every run in which no client leaves that others depend on |
| UplinkCoverage.NoneStrandedMeans | src/server/uplink.c:208-234 | what waits lies in a range in flight or about to be sent, or in a slot that is NEW or not yet resent |
| UplinkCoverage.NoneStrandedIfOnlyIdleLeave | src/server/uplink.c:151-162 | the same in every run in which no leaving client owns a slot that is NEW or waits to be sent again, which the server can see |
| UplinkCoverage.RemovalStrandsIffDependents | src/server/uplink.c:151-162 | removing a client strands nobody exactly if no other request depends on its slots alone |
| UplinkCoverage.IdleClientMayLeave | src/server/uplink.c:151-162 | a client without a NEW or unsent request can always leave |
| UplinkCoverage.StrandedExample | src/server/uplink.c:151-162 | a request attached to an unsent one is stranded when that client leaves |
| UplinkCoverage.LoneNewReached | src/server/uplink.c:273-312 | the situation before it is reached by a run |
| UplinkSystem.DirectMarkIsExact | src/server/uplink.c:291-303 | the test of handle, client and status in front of the direct PENDING mark only ever meets the client's own request |
| UplinkCoverage.SwitchStep | src/server/uplink.c:377-408 | after a server switch every open request waits to be sent again |
| UplinkCoverage.AcceptStep | src/server/uplink.c:235-266 | attaching only to a NEW request or above the own slot keeps every request carried |
| UplinkCoverage.ReplyStep | src/server/uplink.c:837-846 | a reply takes only requests it answers out of the in-flight coverage |
| UplinkCoverage.PickStep | src/server/uplink.c:587-607 | marking a slot PENDING keeps it carried by what is about to be sent |
| HashBlockSearch.FindNextIncompleteHashBlock | src/server/uplink.c:700-741 | without a map -1; with one, -1 exactly if every hash block is all empty or all full (the last byte counts as full once requested); otherwise a byte that is not 0xff, in a mixed hash block or starting an empty one directly before a block whose first byte is partial; and exactly which byte |
| HashBlockSearch.Search | src/server/uplink.c:706-738 | the same for the loop over the bytes of a map, from any start and cyclically |
| HashBlockSearch.AllUniformMeans | src/server/uplink.c:706-735 | nothing is found exactly if any two map bytes of the same 512 are both done or both zero |
| HashBlockSearch.MixedUnlessCarriedOver | src/server/uplink.c:710-735 | the block answered for is neither full nor empty, except exactly when a candidate is carried over from the preceding empty block |
| HashBlockSearch.CarriedOverExample | src/server/uplink.c:710-735 | a map for which that happens |
| HashBlockSearch.LastByteAgainIff | src/server/uplink.c:706-735 | a last byte that counts as full is answered exactly if it is empty and alone in its hash block, the search starts elsewhere, and byte 0 is the first that spoils its hash block |
| HashBlockSearch.Stop | src/server/uplink.c:714-735 | where the search stops the hash blocks are not all uniform |
| HashBlockSearch.Go | src/server/uplink.c:720-735 | a byte that does not stop the search keeps: no candidate means the hash block is full so far, a candidate is its start and everything so far is empty |
| Replication.Link.SendReplicationRequest | src/server/uplink.c:630-693 | when replication is idle and enabled: the first byte cyclically (full mode), the first in the hash block or the search result (hash block mode) is requested, or replication switches itself off; the map may change between the searches of a call |
| Replication.FindWanted | src/server/uplink.c:656-664 | the wrapping search finds the first byte with something to replicate in its range, if there is one |
| Replication.Choose | src/server/uplink.c:645-668 | -1 in full mode exactly if no byte is open; in hash block mode the search over all hash blocks only decides if the rest of the current one is done |
| Replication.FullModeChoice | src/server/uplink.c:646-664 | full mode: the first byte not done from the index on, else the first of all, else nothing |
| Replication.HashModeChoice | src/server/uplink.c:649-668 | hash block mode: the first byte not done in the rest of the current hash block; only if there is none, elsewhere |
| Replication.Continue | src/server/uplink.c:687-692 | in hash block mode a request for the last byte of a hash block moves on to a hash block worth completing, or to -1 if none is |
| Replication.RequestFor | src/server/uplink.c:674-676 | a request covers one map byte and ends with the image |
| Replication.RequestIsUseful | src/server/uplink.c:674-678 | in every mode a request lies inside the image and its byte was not full in the map that was searched |
| Replication.RequestShrinksOpen | src/server/uplink.c:655-687 | in both modes a request takes its byte out of those still to be asked for; without interference it was one of them unless the map before the call has the last byte asked for again |
| Replication.AskedAgainIff | src/server/uplink.c:655-687 | without interference a call asks for a byte that is not open exactly if the map says so: the last byte is marked but empty and alone in its hash block, the current hash block is done, and byte 0 is the first the next search finds spoiled |
| Replication.OffOnlyWhenUniform | src/server/uplink.c:665-693 | in hash block mode replication only switches itself off when the map looked at has no mixed hash block |
| Replication.LastByteAgainExample | src/server/uplink.c:713-722 | a map for which the last byte is asked for again |
| ReplicationRuns.RequestMakesProgress | src/server/uplink.c:644-687 | in every state of a run, in both modes, a request takes its byte out of those still to be asked for; it was one of them, or it is the last byte in hash block mode, marked as replicated although a block of it is missing |
| ReplicationRuns.ReplyFills | src/server/uplink.c:799-833 | a stored reply fills its map byte, the last one as far as there are blocks |
| ReplicationRuns.RequestsBounded | src/server/uplink.c:644-687 | in both modes at most one request per map byte, plus one for each request that got no answer or was stored only in part, each byte that a clear made incomplete, and each change of server after the last byte was asked for; sends may fail and the map may be cleared between the searches of a call |
| ReplicationRuns.StepInv | src/server/uplink.c:377-405 | every step keeps what these rest on, among them the switch that leaves replication off and the failed connection that turns it on |
| ReplicationRuns.ReplicationEndsComplete | src/server/uplink.c:669-673 | when full replication has switched itself off and the map was not cleared since, the image is complete: in every run whose requests were all answered and fully written and no clear took a byte, and already if since the last byte was last asked for its request got a full answer and no clear took a block of it, whatever failed elsewhere; in any case it is complete exactly if the last map byte's blocks are there |
| ReplicationRuns.EnoughRequestsComplete | src/server/uplink.c:644-687 | in both modes, once as many requests were sent as RequestsBounded allows and none is on its way, the image is complete |
| ReplicationRuns.StepPaid | src/server/uplink.c:684-687 | no step makes data of the last byte go missing unless its request failed or was stored in part, or a clear took it |
| ReplicationRuns.NothingLeft | src/server/uplink.c:644-673 | with nothing left to ask for, the image is complete exactly if the last map byte's blocks are there |
| ReplicationRuns.SearchFinds | src/server/uplink.c:656-664 | while a byte is open the search finds one |
| ReplicationRuns.LostLastExample | src/server/uplink.c:395-397 | a run that is off and incomplete after a partly stored last reply, and still is when a better server was taken |
| ReplicationRuns.CompleteRun | src/server/uplink.c:669-673 | a run without mishaps that ends with the image complete |
| ProxyRing.CycleStops | src/server/uplink.c:208-249 | in every run of a ring of n proxies no copy of a request is relayed more than n + 1 times, n times if its range is aligned, with any other queue contents and with slots sent twice |
| ProxyRing.BoundIffStoppable | src/server/uplink.c:284-287 | the bound holds for every copy in every run exactly for rings of one or two proxies, hop counts below 199, or 199 with an aligned range |
| ProxyRing.LastRelay | src/server/uplink.c:208-226 | after the last relay the next proxy rejects or attaches |
| ProxyRing.Circle | src/server/uplink.c:595-605 | a run with n + 2 relays for every other hop count |
| ProxyRing.ShortRun | src/server/uplink.c:187-197 | in a ring of one or two proxies a request is relayed at most once, as it comes from the upstream host itself |
| ProxyRing.StepInv | src/server/uplink.c:208-271 | every step keeps the traces the request left in the first two queues |
| Crc32.Checksum | src/shared/crc32.c:546-617 | the little-endian and the big-endian function give the CRC of the definition for every buffer, length and start address |
| Crc32.TableByteStep | src/shared/crc32.c:554-557 | one table lookup is eight steps of the bit-by-bit register |
| Crc32.TableIsSteps | src/shared/crc32.c:538-540 | table k holds the effect of k + 1 bytes |
| Crc32.Entry128 | src/shared/crc32.c:86 | entry 128 of the generated table is the polynomial |
| CrcCheck.Polynomial | src/shared/crc32.c:86 | the polynomial is 0xedb88320, given by its bytes |
| CrcCheck.CheckValue | src/shared/crc32.c:546-617 | the CRC-32 of the byte 'a' is 0xe8b7be43 |
| Crc32.WordSteps | src/shared/crc32.c:538-540 | 32 steps of a word are four lookups |
| Crc32.SliceIsFourBytes | src/shared/crc32.c:538-540 | DOLIT4 is four byte updates |
| Crc32.SliceBigIsLittle | src/shared/crc32.c:580-582 | DOBIG4 on byte-swapped operands is DOLIT4, byte-swapped |
| Crc32.BigByteStep | src/shared/crc32.c:596-599 | the big-endian byte update keeps the register byte-swapped |
| Crc32.CrcConcat | src/server/image.c:1475-1486 | the checksum of a concatenation is the chained checksum |
| Crc32.ChunkingIsIrrelevant | src/server/image.c:1475-1486 | the checksum chained over any list of chunks is the checksum of their concatenation |
| BlockCrc.CalcBlockCrc32 | src/server/image.c:1611-1651 | for any sequence of short reads the result is the checksum of the hash block padded with zeros to full 4 KiB blocks; it fails exactly if a read fails while bytes of the file are still wanted |
| BlockCrc.ReadPart | src/server/image.c:1627-1637 | however short the reads are, the loop gives the checksum of the wanted bytes; it fails exactly if a read fails before they are there |
| BlockCrc.NullPart | src/server/image.c:1638-1647 | continues the checksum with the given number of zero bytes, in pieces |
| BlockCrc.PaddingIsIrrelevant | src/server/image.c:1611-1651 | an origin file with a partial last block and its padded copy have the same hash block bytes |
| BlockCrc.SameChecksum | src/server/image.c:1611-1651 | the two files have the same checksums, whatever their reads return |
| ChunkedDecoder.SplitInvariance | src/server/picohttpparser/picohttpparser.c:498-611 | decoding A, then B with the kept state after -2, equals decoding A + B; after the end or an error further input changes nothing |
| ChunkedDecoder.DecodeInvertsEncode | src/server/picohttpparser/picohttpparser.c:498-611 | decoding any well-formed body gives its payload and stops exactly behind it, with and without trailers |
| ChunkedEncoder.DecodesWhatWasWritten | src/server/picohttpparser/picohttpparser.c:498-611 | bodies with sizes written in base 16, in digits of either case, are decoded to their payload, and decoding stops exactly behind them |
| ChunkedEncoder.DigitValue | src/server/picohttpparser/picohttpparser.c:485-496 | each of the 22 hexadecimal digits has its value, every other byte has none |
| ChunkedEncoder.NumberDecodes | src/server/picohttpparser/picohttpparser.c:505-524 | a number written in base 16 is read back |
| ChunkedEncoder.TenBytesExample | src/server/picohttpparser/picohttpparser.c:498-611 | an ordinary body of one chunk, byte for byte |
| ChunkedDecoder.RefusedExactly | src/server/picohttpparser/picohttpparser.c:505-576 | a byte is refused exactly if a size line has no digit or more than 16, or something else than a line end follows the data |
| ChunkedDecoder.EndsExactly | src/server/picohttpparser/picohttpparser.c:528-590 | a byte ends the body exactly if it is the line feed of a last chunk without trailers or of a blank line behind them |
| ChunkedDecoder.WriteBehindRead | src/server/picohttpparser/picohttpparser.c:498-611 | the write index never passes the read index |
| ChunkedDecoder.DecodeValid | src/server/picohttpparser/picohttpparser.c:505-524 | at most 16 digits: the chunk size never leaves the range of size_t |
| ChunkedDecoder.SizeLineDecode | src/server/picohttpparser/picohttpparser.c:505-545 | a size line leads to the data, the trailers or the end |
| ChunkedDecoder.TrailersDecode | src/server/picohttpparser/picohttpparser.c:577-601 | any number of non-blank trailer lines is consumed without output and leaves the decoder where it was |
| ChunkedBuffer.Parser.DecodeChunked | src/server/picohttpparser/picohttpparser.c:498-611 | in place: the buffer then holds the payload followed by the unread tail, the result is -2, -1 or the number of bytes left, the decoder state is the specified one |
| ChunkedBuffer.Parser.ChunkSize | src/server/picohttpparser/picohttpparser.c:505-526 | stops at the end of the input, refuses a line without a digit or with more than 16, and otherwise is in front of the extensions with the size read, without consuming the byte behind it |
| ChunkedBuffer.Parser.ChunkExt | src/server/picohttpparser/picohttpparser.c:528-545 | skips to the end of the line and goes on to the data, the trailers or the end, as the byte-wise definition does |
| ChunkedBuffer.Parser.ChunkData | src/server/picohttpparser/picohttpparser.c:547-563 | moves as much of the chunk as there is behind the payload; the unread input and everything behind the buffer stay as they were |
| ChunkedBuffer.Parser.ChunkCrlf | src/server/picohttpparser/picohttpparser.c:564-577 | accepts any carriage returns and one line feed, refuses everything else |
| RttHandshake.HandshakeIsSafe | src/server/altservers.c:131-179 | in every interleaving: a better connection waits exactly with DOCHANGE, an uplink has an unprocessed slot exactly while INPROGRESS and never two, both assertions hold, a removed uplink is in no slot and not INPROGRESS |
| RttHandshake.StepInv | src/server/altservers.c:435-599 | every step of uplink threads and the measuring thread keeps this |
| RttHandshake.FindInv | src/server/altservers.c:131-162 | asking for a measurement gives the uplink one unprocessed slot exactly if it then is INPROGRESS, even while an older slot of it is not cleared yet |
| RttHandshake.RemoveInv | src/server/altservers.c:167-179 | removing an uplink takes it out of all slots while the measuring thread cannot be at work on it |
| RttHandshake.ResultInv | src/server/altservers.c:450-592 | writing a result, with or without a better connection, turns the slot into a processed one and finds the uplink INPROGRESS |
| RttHandshake.MeasurementRun | src/server/altservers.c:435-599 | a run in which an uplink becomes INPROGRESS and then has a better connection waiting |
| RttHandshake.FoundMeans | src/server/altservers.c:142-161 | the specification in terms of the slots alone: exactly the first empty one changes, or nothing does |
| RttHandshake.PendingChecks.FindUplink | src/server/altservers.c:131-162 | unless the uplink is INPROGRESS with a slot already, or no slot is empty, the first empty slot gets it and it is INPROGRESS; else nothing changes |
| RttHandshake.PendingChecks.TakeSlot | src/server/altservers.c:150-161 | its second loop takes the first empty slot, if there is one |
| RttHandshake.PendingChecks.RemoveUplink | src/server/altservers.c:167-179 | clears every slot of the uplink |
| ImageRefs.FreedExactlyOnce | src/server/image.c:418-444 | in every interleaving the counter equals the outstanding users, and image_free is due or done exactly once, exactly when nobody uses the image and it is out of the list |
| ImageRefs.ReleaseIsPossible | src/server/image.c:418-425 | whoever gives a use back finds the counter positive |
| ImageRefs.StepInv | src/server/image.c:243-273 | every step of get, lock, release, remove, rescan and listing keeps this |
| ImageRefs.ReleaseInv | src/server/image.c:418-444 | giving a use back lowers the counter with the set of users, and makes the image due for freeing exactly if it was the last and the image is out of the list |
| ImageRefs.RescanInv | src/server/image.c:527-561 | dropping a vanished image frees an unused one and leaves a used one to its last user |
| ImageRefs.LifeRun | src/server/image.c:243-485 | a run in which an image is fetched, locked, removed, given back twice and freed once |
| ImageRefs.AddedMeans | src/server/image.c:708-721 | an image can be added exactly if an entry is free or the array has room |
| ImageRefs.Images.AddToList | src/server/image.c:701-722 | succeeds exactly if an entry is free or the array has room; takes the first free entry, or the end |
| ImageRefs.Images.Remove | src/server/image.c:469-485 | clears the image's entries, trims trailing free ones, and tells whether to free it |
| ImageRefs.WithoutMeans | src/server/image.c:469-485 | the entries of the image are cleared and only trailing free entries cut off |
| ImageRefs.Images.Contains | src/server/image.c:394-412 | the search of image_lock and image_release |
| AltServerList.GetListForClient | src/server/altservers.c:187-232 | the output is the first servers of the sorted list of eligible ones, with no failures counted; entries beyond the requested size stay untouched |
| AltServerList.ListIsStableSortPrefix | src/server/altservers.c:187-232 | it is the beginning, of the smaller of size and number of eligible servers, of the only ordering by descending score that keeps array order among equals |
| AltServerList.ListedServers | src/server/altservers.c:195-231 | no private server and no empty entry is listed; all others are if there is room |
| AltServerList.ListOrder | src/server/altservers.c:199-213 | at equal failures the closer server comes first, at equal closeness the one with fewer failures; another address family costs 128 failures |
| AltServerList.SortedIsStableSort | src/server/altservers.c:199-229 | repeated insertion sorts the candidates stably |
| AltServerList.OrderIsUnique | src/server/altservers.c:199-229 | there is only one such ordering |
| AltServerList.TakeInsert | src/server/altservers.c:199-229 | cutting off at every insertion loses nothing that would come back |
| AltServerList.Place | src/server/altservers.c:199-229 | shifting and writing the arrays puts the server at its position and pushes out the last entry when full |
| AltServerList.NetCloseness | src/server/altservers.c:348-360 | the number of leading groups of four bits in which two addresses agree, -1 across families |
| AltServerList.ClosenessMeans | src/server/altservers.c:348-360 | closeness counts the leading groups that agree, of 8 for IPv4 and 32 otherwise |
| FuseRuns.PendingOrAnsweredOnce | src/fuse/connection.c:245-261 | across reads, replies, failed payloads and switches each request is pending or answered, never both, and answered at most once |
| FuseRuns.QueuedWasSent | src/fuse/connection.c:807-862 | whenever nobody is in the middle of sending, every queued request went out on the current socket or there is none |
| FuseRuns.SwitchedRun | src/fuse/connection.c:807-862 | a run in which a request is sent, sent again after a switch, and answered once |
| FuseRuns.StepConserves | src/fuse/connection.c:360-406 | no step loses or doubles a request |
| FuseRuns.StepSent | src/fuse/connection.c:843-860 | every step keeps queued requests sent or about to be sent |
| FuseQueue.Queue.Enqueue | src/fuse/connection.c:894-908 | appends to the list; head, tail and links agree with the abstract sequence |
| FuseQueue.Queue.Remove | src/fuse/connection.c:910-932 | takes the request out if it is there, fixing head, tail and the link before it |
| FuseQueue.Queue.TakeAll | src/fuse/connection.c:824-828 | detaches the whole chain |
| FuseQueue.Queue.PutBack | src/fuse/connection.c:846-858 | puts the detached requests back in the same order |

## Left out

- Sockets, poll, fsync, sendfile, pread and pwrite themselves: their results are parameters or nondeterministic choices.
- Loading, cloning and evicting images, configuration, logging, HTTP and JSON, the kernel module, the bench tool.
- The worker thread of src/server/integrity.c: handing a block over is a result, a failed check is a step that clears part of the map.
- `image_tryFreeAll` and shutdown, which the source marks as racy, and the panic probe's direct read of the FUSE client.
- ProxyCache.ProxyReadsRefineOrigin: leaves out the steps after which it is false, each with its exact condition: crashes after the unlink with data not yet synced (`ProxyCache.UnlinkedMapSafeIffSynced`), restarted writes of a map whose bytes do not only gain bits (`ProxyCache.ShortSavesSafeIff`), saves without a sync although something was written (`ProxyCache.UnsyncedSaveSafeIff`).
- ProxyCache.SavedMapIsCrashSafe: leaves out the same steps, and takes it for granted that the map file of a fresh image is empty on disk.
- UplinkCoverage.NoStrandedRequest: removals that strand someone are left out, for which it is false (`UplinkCoverage.RemovalStrandsIffDependents`).
- UplinkRuns.DeliveryIsExactAndAtMostOnce: an answer counts as given when it is handed to the client's socket; the resending of starving requests in debug builds is not a step. Slots are read as a whole, also where uplink_request reads one without the lock.
- CacheMap.Image.UpdateCachemap: the map in the result is the one right after the bit loop; what other threads change while the lock is free only shows in the checks of the hash blocks.
- ReplicationRuns.RequestsBounded: a run is that of one uplink thread; a thread that ends and is started again begins a new run.
- UplinkSlots.RequestSlots.PickNext: ranges are shorter than 2 GiB, which the payload limit in front of the queue sees to.
- ProxyRing.CycleStops: counts the relays of each copy, not of all copies together; no replies, removals or reconnects, all proxies on protocol version 3 and on different hosts; requests of other clients are queued and sent freely.
- Crc32.Checksum: the tables are given by their generator, not as literal entries.
- BlockCrc.CalcBlockCrc32: the checksum is a machine word; how it lies in memory as bytes is not modelled.
- ChunkedBuffer.Parser.DecodeChunked: the cases of the switch are methods, and falling through to the next case is the next turn of the loop.
- ImageRefs.FreedExactlyOnce: images are identified by number, so the reuse of a freed address by a new image is not seen.
- AltServerList.GetListForClient: failure counts do not change while the list is built, as they are read under the lock.
- FuseRuns.PendingOrAnsweredOnce: requests are identified by number, so reuse of a freed request's address is not seen; how threads share the memory of a request is not modelled.
