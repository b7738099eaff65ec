# CodeOS-Kernel: verified models of its protocols, caches, codecs and trees

This project models the parts of CodeOS-Kernel that carry real state: device queues, rings
shared between threads, caches that may hold duplicates, a checksum and its framing, pattern
matching, and trees and arrays rewritten in place. Each module follows one source file.

Where the C code updates fields and arrays, the model is a class with those fields and arrays,
and each method is proved equal to a function of the old state. The promises of the source are
then proved about those functions, mostly for every run and every interleaving. Where the
environment matters (an NVMe controller, a second thread), it is part of the model as steps that
may happen at any time.

| file | models |
|---|---|
| ArpCache.dfy | kernel/arp.c: the ARP cache against a last-writer-wins directory with expiry |
| ZirconIpc.dfy | drivers/zircon_ipc.c: the lock-free ring, one byte copy or index access per step |
| NvmeQueue.dfy | drivers/nvme.c: queue pair and controller as steps; phases, identifiers, fetches |
| NvmeSubmit.dfy | drivers/nvme.c: what one submit may lead to, with abandoned commands about |
| NvmeDriver.dfy | drivers/nvme.c: polling, submitting and chunked transfers in place |
| Crc32.dfy | kernel/adb.c and kernel/android_prop.c: both CRC-32 routines (section 8 of RFC 1952) |
| AdbFraming.dfy | kernel/adb.c: packet headers, payloads and streams of packets |
| PanelsTree.dfy, PanelsDe.dfy, PanelsLayout.dfy | lvgl_panels.c: the tiling tree, its surgery, balancing and layout |
| Glob.dfy, AdBlock.dfy | kernel/ad_block.c: the wildcard matcher, the rule store and the host check |
| AppHost.dfy | kernel/apphost.c: the two byte rings and the quit protocol |
| Bits.dfy, Virtqueue.dfy | drivers/virtio_net.c: sizing, free chain and available ring |
| WindowManager.dfy | lvgl_wm.c: the z-ordered window array |
| Gesture.dfy, GestureLog.dfy | drivers/gesture.c: the multi-finger tracker, and what its events mean |
| UhciTransfer.dfy | drivers/usb_uhci.c: the transfer-descriptor chain of a control transfer |
| Prelude.dfy | an option type, machine integers and bytes, rectangles |

## What turned out different from what the code's comments suggest

- `arp_remove` clears one slot. It forgets the address exactly when no second slot holds it
  (`ArpCache.RemoveForgetsIff`); a run that ends in a stale answer is given.
- `wildcard_match` does not let a star that is not last match the empty rest of the host. It is
  globbing exactly for patterns that do not end in two stars (`Glob.AgreesWithGlobbingIff`).
- The comment in `apphost_read_in` says a queued "q\n" arrives before the quit marker.
  `apphost_kill` queues it in a second critical section, so a read with room between the two
  gets the marker first; this is exactly when it happens (`AppHost.MarkerOvertakesLineIff`).
- `nvme_wait_cqe` reads the command identifier after it has rung the head doorbell. That is safe
  because a full completion queue keeps one slot open (`NvmeQueue.EntryOutlivesDoorbell`).
- NVMe command identifiers are 16-bit and reused blindly. A submit can take another command's
  success for its own exactly when an old command with the same identifier is still about
  (`NvmeQueue.MistakenIffOldCommandInTheWay`), and such a state is reachable.
- A driver that has timed out once stays behind for good: each submit adds a command and takes at
  most one answer (`NvmeSubmit.OnceBehindNeverQuiet`). A late answer that waits fails the next
  submit, whatever became of it (`NvmeSubmit.LateAnswerFailsNext`).
- `nvme_transfer` frees the bounce page of a command that timed out. A later success may then belong
  to another command or be no faithful copy exactly when an old identifier is in the way or an
  unanswered command touches its page or its range (`NvmeSubmit.DeceivesIffTouched`); such a run is
  given.
- The driver never asks whether the submission queue has room. Fifteen submits to a controller that
  hangs use it up, and the next one loses all that wait (`NvmeQueue.SubmitLosesNothingIff`,
  `NvmeQueue.NoRoomIsReachable`); completions are still taken in order.
- A lookup in the ARP cache can answer with an entry that was replaced exactly when some call took the
  current entry away from above it (`ArpCache.UncoversIffStaleAnswer`). Three runs show it: a removal,
  a purge whose clock was read before the lock, and an eviction after uses in one millisecond.
- `adb_poll` reads the data of connect, open and write packets only. It stays in step with a stream
  exactly when all other packets carry none (`AdbFraming.PollsInStepIff`).
- `uhci_control_transfer` gives every data descriptor a full packet, the last one too. The
  descriptors ask for exactly the bytes of the transfer only when its length is a multiple of the
  packet size (`UhciTransfer.DescriptorsTileIff`), and may reach past the 512-byte buffer
  (`UhciTransfer.DescriptorsStayInBufferIff`).
- The comment in `gesture_touch_down` speaks of the first finger's gesture; the code clears slots
  0 and 1. A first finger in slot 2 or 3 keeps its travel and can report it as a swipe after the
  pinch (`Gesture.OldTravelOutlivesPinchIff`).

## Model

| member | source | states |
|---|---|---|
| ArpCache.ArpTable.Resolve | kernel/arp.c:14-33 | a lookup answers from the first slot of the address, drops that slot if it has expired, and refreshes its access time otherwise |
| ArpCache.ArpTable.Update | kernel/arp.c:43-65 | an update takes the first free, matching or expired slot, else the one idle longest, and changes no other |
| ArpCache.ArpTable.PurgeExpired | kernel/arp.c:74-80 | exactly the expired slots become invalid |
| ArpCache.ArpTable.Remove | kernel/arp.c:67-72 | only the first slot of the address is invalidated |
| ArpCache.ArpTable.HasIp | kernel/arp.c:198-204 | true exactly when some valid slot holds the address |
| ArpCache.OldestOf | kernel/arp.c:47-58 | the eviction victim is no more recently used than any slot |
| ArpCache.UpdateIsRemembered | kernel/arp.c:43-65 | whatever the cache holds, right after an update a lookup of its address comes to that entry and answers with it for the TTL |
| ArpCache.UpdateEffect | kernel/arp.c:47-63 | an update changes one slot: the first that is not a live entry of another address, or, when all are, the one idle longest, the lowest on a tie |
| ArpCache.LookupEffect | kernel/arp.c:14-33 | an answer is the first slot's and refreshes only its access time; an expired entry is dropped; otherwise nothing changes |
| ArpCache.PurgeEffect | kernel/arp.c:74-80 | a purge keeps exactly the entries within their lifetime, as they are |
| ArpCache.ExpiredIff | kernel/arp.c:20 | an entry has expired after 300000 ms, and with 64-bit wrap-around also when it is stamped ahead of the clock, unless by nearly the whole counter |
| ArpCache.OpKeepsInvIff | kernel/arp.c:14-80 | an update, lookup, purge or removal keeps, exactly when it uncovers no live entry that was replaced: of two slots of one address the lower is the newer, and a live slot stands behind the current entry of its address |
| ArpCache.UncoversIffStaleAnswer | kernel/arp.c:14-80 | it uncovers one exactly when some later lookup answers with an entry that is not the latest |
| ArpCache.OpKeepsUseOrder | kernel/arp.c:43-65 | a call keeps: of two slots of one address the lower was created after the last use of the higher, unless an update is stamped in the millisecond of that use |
| ArpCache.OrderedUpdateUncoversNothing | kernel/arp.c:47-58 | under that order no update uncovers a replaced entry |
| ArpCache.ClaimUncoversNothing | kernel/arp.c:50-55 | an update that finds a free, matching or expired slot never does |
| ArpCache.LookupUncoversNothing | kernel/arp.c:14-33 | no lookup uncovers a replaced entry, also when it expires one |
| ArpCache.PunctualPurgeUncoversNothing | kernel/arp.c:74-80 | no purge whose reading is not before the last stamp does |
| ArpCache.LoneRemovalUncoversNothing | kernel/arp.c:67-72 | no removal of an address held by one slot does |
| ArpCache.EvictionTakesStaleFirst | kernel/arp.c:56-58 | under the use order the slot idle longest has no copy of its address above it |
| ArpCache.ResolveMeetsDirectory | kernel/arp.c:14-33 | a lookup answers exactly when the address's current entry is held and within its lifetime, and then with its hardware address |
| ArpCache.ResolveGivesLatestUpdate | kernel/arp.c:14-80 | after any run of updates, lookups, purges and removals that uncovers nothing, a lookup that answers gives the latest update of that address, and that update is within the TTL |
| ArpCache.StrictClockIsEnough | kernel/arp.c:49-76 | no run of updates, lookups and purges under a clock that advances before every update stamp, with no purge overtaken by an update, uncovers anything |
| ArpCache.StrictClockGivesLatestUpdate | kernel/arp.c:14-80 | so under such a clock a lookup that answers gives the latest update, within the TTL |
| ArpCache.LiveEntryLostIff | kernel/arp.c:14-80 | a live current entry is lost exactly by removal, by a purge that read the clock before its stamp, or when all 64 slots hold live entries of other addresses, it is the one idle longest, and no second slot holds it once more |
| ArpCache.HeldUntilLost | kernel/arp.c:14-80 | in any run that uncovers nothing, while the latest update of an address is within the TTL its entry is held exactly as long as no call since has lost it: removal, early purge, or eviction without a twin |
| ArpCache.AnswersUntilLost | kernel/arp.c:14-80 | in any such run a lookup answers with the latest update exactly while it is within the TTL and no call since has lost it |
| ArpCache.RemoveForgetsIff | kernel/arp.c:67-72 | after a removal no slot holds the address exactly when at most one did before |
| ArpCache.RemoveCanUncoverStale | kernel/arp.c:67-72 | a concrete run in which removal makes a lookup answer with a superseded address |
| ArpCache.TieCanUncoverStale | kernel/arp.c:56-58 | a run in which 64 entries were last used in one millisecond and the next update evicts a current one from above the copy it replaced |
| ArpCache.EarlyPurgeCanUncoverStale | kernel/arp.c:74-80 | a concrete run in which a purge with a reading one millisecond old does the same |
| ZirconIpc.SharedRing.Send | drivers/zircon_ipc.c:24-31 | refused exactly when fifteen messages are pending; otherwise the message joins the end of the queue |
| ZirconIpc.SharedRing.Recv | drivers/zircon_ipc.c:33-40 | returns and removes the oldest pending message, or 0 when there is none |
| ZirconIpc.SharedRing.Available | drivers/zircon_ipc.c:42-45 | true exactly when a message is pending |
| ZirconIpc.ReceivedIsPrefixOfSent | drivers/zircon_ipc.c:24-40 | under every interleaving of loads, byte copies and stores, received messages are a whole, in-order prefix of sent ones, with at most fifteen under way |
| ZirconIpc.NeverOverwritesSlotInUse | drivers/zircon_ipc.c:28-37 | the producer never writes the slot the consumer is copying |
| ZirconIpc.RefusalsAreHonest | drivers/zircon_ipc.c:27-35 | a send is refused exactly when fifteen are outstanding at its load of the tail, a receive comes back empty exactly when nothing is at its load of the head |
| ZirconIpc.SendAloneMatchesSend | drivers/zircon_ipc.c:24-31 | the stepwise producer, undisturbed, does what the whole call promises |
| ZirconIpc.RecvAloneMatchesRecv | drivers/zircon_ipc.c:33-40 | and so does the stepwise consumer |
| NvmeQueue.SubmitLosesNothingIff | drivers/nvme.c:116-141 | a submit loses no command exactly when fewer than fifteen wait to be fetched |
| NvmeQueue.SubmitWithoutRoomIsMissed | drivers/nvme.c:137-138 | with fifteen waiting, the next submit makes the queue look empty to the controller, and all sixteen are lost to it |
| NvmeQueue.NoRoomIsReachable | drivers/nvme.c:126-138 | a run of fifteen submits reaches such a state |
| NvmeQueue.CompleteKeepsInv | drivers/nvme.c:97-114 | a completion posted under the controller's own full test never overwrites an entry not yet taken |
| NvmeQueue.NthTakenIsNthPosted | drivers/nvme.c:97-141 | in every run, however many commands are submitted, after k completions taken the head is k mod 16 and the phase 1 - (k / 16) mod 2, and the next entry seen is exactly the k-th posted; as long as submits find room the controller works on the commands as submitted, in order |
| NvmeQueue.SeenIffPosted | drivers/nvme.c:100-101 | the phase test is true exactly when an untaken completion has been posted, across any number of wraps |
| NvmeQueue.EntryOutlivesDoorbell | drivers/nvme.c:103-109 | the entry read after the head doorbell is still the one that was seen |
| NvmeQueue.ZeroMeansOwnSuccess | drivers/nvme.c:109-141 | in any state of any run, unless an old command of the same identifier is in the way, a submit returns 0 only after the controller reported success of that very command |
| NvmeQueue.MistakenIffOldCommandInTheWay | drivers/nvme.c:109-141 | some controller behaviour makes the next submit return 0 for another command exactly when such an old command exists |
| NvmeQueue.RecentCommandsNeverInTheWay | drivers/nvme.c:117-129 | no such command exists while all unanswered or untaken ones are among the latest 65535 |
| NvmeQueue.IdentifierReuseIsReachable | drivers/nvme.c:109-129 | a run reaches a state with one unanswered command in which the next submit can be fooled |
| NvmeSubmit.LagNeverShrinks | drivers/nvme.c:97-141 | a call leaves the number of answers the driver is behind unchanged, or, only when it times out, larger by one |
| NvmeSubmit.OnceBehindNeverQuiet | drivers/nvme.c:97-141 | over any run of calls, with room or without, a driver once behind never again has taken an answer for every command it submitted |
| NvmeSubmit.LateAnswerFailsNext | drivers/nvme.c:97-141 | when a late answer waits and no old identifier is in the way, the next submit takes that one and returns -1 |
| NvmeSubmit.ZeroMeansDone | drivers/nvme.c:97-141 | when no old identifier is in the way, 0 means there was room, no answer was waiting and this command was reported done, with any others still unanswered |
| NvmeSubmit.QuietSubmitIsExact | drivers/nvme.c:97-141 | with nothing else under way a submit returns 0 exactly when its command was answered with success before the driver gave up, and -1 exactly when it was not answered in time or not with success |
| NvmeSubmit.SubmitSpares | drivers/nvme.c:116-141 | whatever a submit returns, only its own range or page and those of unanswered commands changed |
| NvmeSubmit.SuccessIsFlat | drivers/nvme.c:126-141 | when no unanswered command may change the bounce page, 0 means every sector they may not change was copied faithfully |
| NvmeSubmit.DeceivesIffTouched | drivers/nvme.c:126-141 | some controller behaviour makes a submit return 0 for another command or without a faithful copy exactly when an old identifier is in the way, or there is room, no answer waits and an unanswered command touches the page or the range |
| NvmeSubmit.MiscopiesIffTouched | drivers/nvme.c:126-141 | with room, the copy itself may be unfaithful under the same condition; without room 0 is possible exactly when an old identifier is in the way |
| NvmeSubmit.AbandonedReadCanSpoilNext | drivers/nvme.c:262-268 | a run reaches such a state: a read times out, its page is freed and used again by the next read |
| NvmeDriver.Nvme.constructor | drivers/nvme.c:224-228 | the queue state at start: empty rings, tail and head 0, phase 1, identifier 1, nothing under way |
| NvmeDriver.Nvme.WaitCqe | drivers/nvme.c:97-114 | whatever the controller does meanwhile, a wait either times out, after a hundred thousand looks and with nothing posted left untaken at the last, or takes exactly one entry and returns 0 exactly when it carries the wanted identifier and status 0; when an entry is there at the start it takes one |
| NvmeDriver.Nvme.IoSubmit | drivers/nvme.c:126-141 | a submit is one command in the tail slot with its range split over the command words, then a wait for its identifier; it falls behind only by a timeout, with nothing posted left untaken |
| NvmeDriver.Nvme.AdminSubmit | drivers/nvme.c:116-124 | the same for a command filled in elsewhere |
| NvmeDriver.IoCommandRange | drivers/nvme.c:131-136 | the controller reads back the block address and count the driver split up |
| NvmeDriver.CopyAdvances | drivers/nvme.c:257-269 | a further chunk extends a flat copy of the sectors so far to a flat copy of more |
| NvmeDriver.CopiedExactly | drivers/nvme.c:254-271 | with nothing unanswered, a finished transfer is exactly one write or read of the whole range |
| NvmeDriver.Nvme.Transfer | drivers/nvme.c:254-271 | in any state, unless block addresses wrap while an identifier comes round, only the range and what unanswered commands may change is changed; when no identifier it uses and no free page is an unanswered command's, 0 means a flat copy of the whole range outside their sectors, and -1 some whole chunks copied, with the buffer otherwise untouched and at most the next chunk of storage touched besides; 0 means one command for every eight sectors begun was submitted, and with nothing under way -1 means the driver is not ready, has no page, or its last command failed; it falls behind only by a timeout |
| NvmeDriver.Nvme.ReadSectors | drivers/nvme.c:273-275 | the same for a read; with nothing under way, success gives exactly the range and an unchanged disk, and unless it times out nothing is under way afterwards, also on failure |
| NvmeDriver.Nvme.WriteSectors | drivers/nvme.c:277-279 | the same for a write; with nothing under way, success changes exactly the range, to the buffer |
| NvmeDriver.WriteThenRead | drivers/nvme.c:273-279 | reading a written range gives what was written; reading a range apart from it gives what was there |
| Crc32.LowByteDecides | kernel/adb.c:51-52 | eight bit steps on a word are eight on its low byte, xored with the word shifted by a byte |
| Crc32.InitCrc32 | kernel/adb.c:38-46 | the table holds eight bit steps of each index |
| Crc32.CalcCrc32 | kernel/adb.c:48-54 | the table-driven loop computes the bit-by-bit CRC of the data |
| Crc32.Crc32Hash | kernel/android_prop.c:11-19 | the masked bit loop computes the same CRC of the bytes before the first zero |
| Crc32.CStringOfNulFree | kernel/android_prop.c:13-14 | a zero-free byte string followed by a zero is hashed in full, so both routines agree on it |
| Crc32.StepIsLinear | kernel/adb.c:42 | the bit step distributes over exclusive or |
| Crc32.StateIsInjective | kernel/adb.c:51-52 | different states stay different through any bytes |
| Crc32.BurstChangesCrc | kernel/adb.c:48-54 | any change inside four consecutive bytes changes the CRC, whatever surrounds them |
| Crc32.KnownValue | kernel/adb.c:48-54 | the CRC of the string "1" is the published 83DCEFB7 |
| AdbFraming.AdbPort.SendPacket | kernel/adb.c:56-71 | the bytes put out are the 24-byte header with length, CRC and complemented command, then the payload |
| AdbFraming.AdbPort.RecvHeader | kernel/adb.c:73-84 | -1 when fewer than 24 bytes arrive, -2 on a bad magic, -3 on a length above 2048, else the header decoded |
| AdbFraming.AdbPort.RecvData | kernel/adb.c:86-95 | -1 when bytes are missing, -4 when the CRC of a non-empty payload differs, else exactly those bytes |
| AdbFraming.AdbPort.Poll | kernel/adb.c:104-166 | a poll takes a header, and data only for connect, open and write; its outcome and what is left of the input |
| AdbFraming.HeaderRoundTrip | kernel/adb.c:58-82 | decoding an encoded header gives it back |
| AdbFraming.WireLayout | kernel/adb.c:56-71 | byte by byte: command, two arguments, length, CRC (0 without data) and complemented command as little-endian numbers at 0, 4, 8, 12, 16 and 20, then the data |
| AdbFraming.HeaderTakenIff | kernel/adb.c:73-84 | a header is taken exactly when 24 bytes arrive, the last word is the complement of the first and the length is at most 2048; and which code refuses it otherwise |
| AdbFraming.DataTakenIff | kernel/adb.c:86-95 | data is taken exactly when all of it arrives and, unless there is none, its CRC is the expected one |
| AdbFraming.NamesOnTheWire | kernel/adb.c:18-22 | commands spell their names in wire order, and those whose data is read are exactly "CNXN", "OPEN" and "WRTE" |
| AdbFraming.StreamRoundTrip | kernel/adb.c:56-95 | when header and data are received in turn, any packets of at most 2048 bytes sent back to back are received as sent, and every byte is consumed |
| AdbFraming.PollsInStepIff | kernel/adb.c:104-166 | polling a stream of sent packets starts every poll where a packet starts exactly when every packet of another command has no data, and then gets all packets as sent |
| AdbFraming.DataTakenForPacket | kernel/adb.c:160-165 | the data of a close packet is polled as a packet of its own, whichever packet without data it spells |
| AdbFraming.DamagedPayloadIsRefused | kernel/adb.c:86-95 | a payload damaged inside four consecutive bytes is refused with -4 |
| AdbFraming.DamageCostsOnePacket | kernel/adb.c:86-107 | the poll that refuses a payload damaged inside four consecutive bytes leaves the input at the next packet |
| AdbFraming.BadHeaderCosts | kernel/adb.c:73-107 | a refused header costs exactly its 24 bytes, one cut short all that is left |
| PanelsTree.SpliceTakesOneWindowOut | lvgl_panels.c:341-363 | splicing out a leaf at any depth leaves mutually consistent, unshared links whose windows from left to right are the old ones without that one |
| PanelsTree.SpliceSparesOtherTrees | lvgl_panels.c:341-363 | trees of other workspaces keep their links |
| PanelsTree.AtMostFifteenSplits | lvgl_panels.h:14 | a well-formed tree in a pool of 32 has at most 15 splits |
| PanelsDe.PanelsDesktop.DestroyWindow | lvgl_panels.c:334-365 | on any state, the pointer and root changes and the blanked window record, branch by branch |
| PanelsDe.DestroyKeepsTree | lvgl_panels.c:334-365 | destroying a window of a well-formed workspace, at the root or below, leaves it well-formed, showing the old tree without that leaf |
| PanelsDe.DestroyKeepsWorkspace | lvgl_panels.c:334-365 | and every other leaf stays tied to its window |
| PanelsDe.DestroySparesOtherWorkspaces | lvgl_panels.c:334-365 | other workspaces still show their trees |
| PanelsDe.DestroyBlanksOne | lvgl_panels.c:334-365 | in any state the window's record is blank afterwards and every other one as it was, no other workspace's root moves, and containers change in nothing but links |
| PanelsDe.PanelsDesktop.BalanceWindows | lvgl_panels.c:425-455 | terminates, sets every split of the tree to one half and nothing else, and never has more than 16 stack entries |
| PanelsDe.WalkOn | lvgl_panels.c:441-451 | a visit keeps: what is done and what is on the stack are all splits, and waiting splits plus entries stay within 16 |
| PanelsDe.BalanceKeepsTree | lvgl_panels.c:425-455 | the balanced workspace shows the same tree, with all its ratios one half and no other container changed |
| PanelsDe.PanelsDesktop.ResizeSplit | lvgl_panels.c:412-418 | only the ratio of a split changes, to the nearest value between a tenth and nine tenths |
| PanelsLayout.PartsFollowSplit | lvgl_panels.c:160-170 | a split divides the right side of its rectangle, its first child within a pixel of its share |
| PanelsLayout.LayoutIsPartition | lvgl_panels.c:160-185 | for any tree and ratios between 0 and 1, each point of the root rectangle lies in exactly one leaf's rectangle and no other point in any |
| PanelsLayout.LeavesArePlaced | lvgl_panels.c:173-180 | leaves are laid out from left to right, each where the tree places it |
| PanelsLayout.DestroyMovesOnlySibling | lvgl_panels.c:334-367 | after a window is destroyed its sibling fills their parent's rectangle and everything outside the sibling's subtree stays where it was |
| Glob.WildcardMatch | kernel/ad_block.c:180-198 | terminates and decides whether the host is globbed by the pattern, two or more stars at its end read as at least one character |
| Glob.AgreesWithGlobbingIff | kernel/ad_block.c:180-198 | it agrees with globbing on every host exactly when the pattern does not end in two stars |
| Glob.StarsAtEndInsist | kernel/ad_block.c:180-198 | behind any text, two or more stars at the end of a pattern mean one character, then anything |
| AdBlock.DomainToLower | kernel/ad_block.c:83-97 | computes the normal form |
| AdBlock.NormShape | kernel/ad_block.c:83-97 | the normal form is the name's first 79 characters in lower case without the dots at the end |
| AdBlock.NormIsIdempotent | kernel/ad_block.c:83-97 | normalising twice changes nothing more |
| AdBlock.AcceptedIff | kernel/ad_block.c:107-126 | a name is accepted exactly when there is room, it does not begin with a hash sign, and one of its first 79 characters is not a dot |
| AdBlock.ChangesInOrder | kernel/ad_block.c:107-290 | an add appends or changes nothing, exactly when refused or stored already; a remove closes one gap |
| AdBlock.Blocker.DomainExists | kernel/ad_block.c:99-105 | true exactly when the name is stored |
| AdBlock.Blocker.AddDomain | kernel/ad_block.c:107-126 | the new store and the return code, for empty, full, comment, duplicate and new names |
| AdBlock.Blocker.RemoveDomain | kernel/ad_block.c:276-290 | the stored normal form is taken out and later rules keep their order; -1 when there is none |
| AdBlock.Blocker.CheckHost | kernel/ad_block.c:200-230 | true exactly when blocking is on and some rule globs the normalised host, or equals it or a dot-separated tail of it |
| AdBlock.BlockedIff | kernel/ad_block.c:200-230 | a host is blocked exactly when its normal form is not empty and is a plain rule, or text, a dot and a plain rule, or is globbed by a rule with wildcards |
| AdBlock.StoreStaysOk | kernel/ad_block.c:107-126 | under any adds and removes the store stays free of duplicates, normalised and within 256 rules |
| AdBlock.ChangesAsSet | kernel/ad_block.c:107-126 | an accepted add puts in exactly the normal form, a remove takes out exactly that |
| AdBlock.AddThenRemove | kernel/ad_block.c:272-290 | removing a newly added name restores the store |
| AdBlock.AddedNameIsBlocked | kernel/ad_block.c:107-230 | an accepted name is itself blocked, wildcards and all, and so is every host below it when it has none |
| AppHost.ByteRing.Write | kernel/apphost.c:39-51 | accepts the longest prefix that fits with one place left open, behind what is queued |
| AppHost.ByteRing.Drain | kernel/apphost.c:53-62 | delivers the oldest bytes, up to the limit, and keeps the rest |
| AppHost.AppRings.WriteOutput | kernel/apphost.c:39-51 | queues the longest prefix of the output that fits |
| AppHost.AppRings.Drain | kernel/apphost.c:53-62 | delivers the oldest output bytes, up to the limit |
| AppHost.AppRings.ReadInput | kernel/apphost.c:80-96 | delivers queued input, then the quit byte if the flag is up and room is left, and takes the flag down |
| AppHost.AppRings.WriteInput | kernel/apphost.c:66-78 | queues the longest prefix that fits |
| AppHost.AppRings.RaiseKill | kernel/apphost.c:98-102 | the first section of a kill raises both flags and nothing else |
| AppHost.AppRings.ClearRings | kernel/apphost.c:207-212 | both rings become empty, the flags stay |
| AppHost.BytesAreConserved | kernel/apphost.c:39-108 | under any interleaving of the atomic sections without a clear, from any state: for each ring, what was queued and then accepted is what was delivered and then what is still queued |
| AppHost.RingsAreFifo | kernel/apphost.c:39-108 | so from the start, what each ring delivers is a prefix of what it accepted, with at most 65535 and 4095 bytes between |
| AppHost.FitsIsLongest | kernel/apphost.c:39-78 | a write accepts a prefix, all of it or as much as leaves one place open |
| AppHost.TakenSplits | kernel/apphost.c:53-96 | a drain or read hands out the oldest bytes, as many as asked for and there, none for a negative number |
| AppHost.MarkerComesLast | kernel/apphost.c:88-93 | a read hands over the marker exactly when the flag is up and room is left, behind all queued input, and takes the flag down; otherwise the flag stays |
| AppHost.MarkerAfterAllInput | kernel/apphost.c:80-96 | when a run hands over the marker, every input byte accepted before it has been delivered |
| AppHost.MarkersNeverOutnumberKills | kernel/apphost.c:80-102 | over any run, markers handed over and one still due are no more than the kills begun |
| AppHost.KillRequestStands | kernel/apphost.c:98-102 | the teardown request is up exactly when a kill has begun |
| AppHost.MarkerOvertakesLineIff | kernel/apphost.c:88-108 | between the two sections of a kill the application is handed the marker exactly when some read there has room to spare |
| AppHost.QueuedComesFirst | kernel/apphost.c:80-96 | over any later reads and writes, what is queued is handed over before any marker and any later input |
| AppHost.LineThenMarker | kernel/apphost.c:80-108 | when the marker has not overtaken it, what fitted of the quit line is handed over, and its bytes delivered, before the marker, over any number of reads of any size |
| AppHost.HandedIsDelivered | kernel/apphost.c:80-96 | the bytes the reads deliver are the items handed over, spelled out |
| AppHost.MarkerCanOvertakeLine | kernel/apphost.c:80-108 | a concrete run in which the marker comes first |
| Bits.PowerTest | drivers/virtio_net.c:90 | the test on the size is zero exactly for powers of two |
| Bits.MaskIsRemainder | drivers/virtio_net.c:146 | masking with size minus one is the remainder by a power of two |
| Virtqueue.ChooseSize | drivers/virtio_net.c:86-95 | the largest power of two not above what was requested, or -1 exactly when the device offers 0 or more than 32768 |
| Virtqueue.Queue.constructor | drivers/virtio_net.c:113-123 | the tables a fresh queue starts from |
| Virtqueue.Queue.AllocDesc | drivers/virtio_net.c:132-138 | takes the head of the free chain and marks it ended, or -1 |
| Virtqueue.Queue.FreeDesc | drivers/virtio_net.c:140-143 | puts a descriptor at the head of the free chain |
| Virtqueue.Queue.SubmitDesc | drivers/virtio_net.c:145-152 | enters the descriptor at the masked index and advances the 16-bit index |
| Virtqueue.AllocKeepsFree | drivers/virtio_net.c:132-138 | an allocation fails exactly when nothing is free, and else takes the first of the chain and keeps it a partition |
| Virtqueue.FreeKeepsFree | drivers/virtio_net.c:140-143 | giving back a held descriptor keeps the chain and the partition |
| Virtqueue.SubmitSlot | drivers/virtio_net.c:146 | the k-th submit uses slot k mod size, also after the index wraps |
| Virtqueue.NeverHandedOutTwice | drivers/virtio_net.c:132-143 | in any run on a fresh queue, a descriptor that one allocation handed out is not handed out again until it has been given back |
| Virtqueue.GivenBackComesNext | drivers/virtio_net.c:132-143 | what was given back last is the next to be handed out |
| Virtqueue.QueueStaysConsistent | drivers/virtio_net.c:116-152 | after any calls that free only what is held, free and held descriptors partition all, the chain ends, allocations are of free descriptors, and the latest of what the calls submitted lie in consecutive slots |
| WindowManager.WindowManager.ClampRect | lvgl_wm.c:35-56 | the rectangle after clamping |
| WindowManager.ClampedIsOnScreen | lvgl_wm.c:35-56 | a clamped rectangle lies inside the screen and is not empty |
| WindowManager.ClampLeavesFitting | lvgl_wm.c:35-56 | a rectangle that fits is not changed |
| WindowManager.ClampIsNearest | lvgl_wm.c:35-56 | clamping moves each number to the nearest allowed: sizes from 1 to the screen less sixteen, positions from 0 to where the window touches the far edge |
| WindowManager.WindowManager.CreateWindow | lvgl_wm.c:103-143 | the new window's record on top, the next id, and the cascade's next place; 0 and no change when full |
| WindowManager.WindowManager.DestroyWindow | lvgl_wm.c:145-166 | the window goes, the others keep their order, and the top one takes over a lost focus |
| WindowManager.WindowManager.FindWindow | lvgl_wm.c:168-175 | finds the window of an id |
| WindowManager.WindowManager.HitTest | lvgl_wm.c:177-188 | the id of the uppermost visible window at the point |
| WindowManager.WindowManager.SyncGeometry | lvgl_wm.c:190-204 | only the named window's rectangle changes, to the clamped one |
| WindowManager.WindowManager.SetFocus | lvgl_wm.c:206-223 | flags, order and focused id after a focus, and the previous id returned |
| WindowManager.WindowManager.Reset | lvgl_wm.c:76-97 | no windows, ids and cascade start again |
| WindowManager.CreateEffect | lvgl_wm.c:103-143 | a new window lies on top with a fresh id, at most 127 characters of title, the cascade's place and the wanted size or 400 by 300, clamped; nothing else changes, and nothing at all when full |
| WindowManager.RunsStayOnDiagonal | lvgl_wm.c:58-143 | after any calls the cascade stands on the diagonal from (24, 24), a whole number of steps down, at the start or within half of the screen's width |
| WindowManager.DestroyEffect | lvgl_wm.c:145-166 | every other window keeps its order and record except its focus flag, and the top one takes over the focus exactly when the destroyed window had it |
| WindowManager.SyncEffect | lvgl_wm.c:190-204 | only that window's rectangle changes |
| WindowManager.UnknownIdEffect | lvgl_wm.c:145-223 | for an id no window has, destroying and moving do nothing and focusing takes the focus away |
| WindowManager.ResetIsFresh | lvgl_wm.c:58-97 | after any calls a reset leads back to the state at start |
| WindowManager.RunsKeepInv | lvgl_wm.c:76-223 | after any calls on a fresh manager ids are distinct, positive and below the next one, the focused id is 0 or names the only flagged window, and every window is inside the screen |
| WindowManager.CallsKeepInv | lvgl_wm.c:103-223 | any calls keep that, from any state in which it holds |
| WindowManager.FocusMovesToEnd | lvgl_wm.c:206-223 | focusing moves the id to the end of the z-order, keeps all other order, and flags it alone |
| WindowManager.FocusedWinsHitTests | lvgl_wm.c:177-223 | after a focus the window wins every hit test in its rectangle until another window is created or raised or it is destroyed |
| WindowManager.HitIsUppermost | lvgl_wm.c:177-188 | a hit test answers the last window that is hit, and 0 when none is |
| Gesture.GestureTracker.TouchDown | drivers/gesture.c:70-109 | the tracker after a press, with the pinch it may start |
| Gesture.GestureTracker.TouchMove | drivers/gesture.c:111-133 | the tracker after a move |
| Gesture.GestureTracker.TouchUp | drivers/gesture.c:135-167 | the tracker and the report after a lift |
| Gesture.GestureTracker.CalcDist | drivers/gesture.c:50-57 | the squared distance of two fingers, 0 when one is not down |
| Gesture.GestureTracker.Abort | drivers/gesture.c:169-174 | all fingers up, no pinch |
| Gesture.TrackerStaysTrue | drivers/gesture.c:70-174 | for callers that never press a finger twice, the count is the number of fingers down, and a pinch is between two fingers that are down, at the recorded squared distance |
| GestureLog.TrackerFollowsLog | drivers/gesture.c:70-174 | in every run of callers that never press a finger twice, the tracker holds of every finger the slot, position, origin, press time and movement that the list of events gives, and the pinch begun with the two fingers' squared distance then |
| GestureLog.PinchReportIff | drivers/gesture.c:135-153 | during a pinch a lift reports PinchOut exactly when the two fingers' squared distance has grown by 900 or more since the second one came, PinchIn exactly when it has shrunk by as much, and else nothing |
| GestureLog.LastFingerReportIff | drivers/gesture.c:19-167 | lifting the only finger reports a long press, a tap or one of four swipes exactly by the time since its press, whether it was ever more than fifteen from its origin, and how far it is from there |
| GestureLog.OtherReports | drivers/gesture.c:135-167 | without a pinch, lifting one of several fingers or one that is not down reports nothing |
| Gesture.SwipeIff | drivers/gesture.c:19-167 | a lift reports a swipe exactly when no pinch is reported, no other finger is down, and the finger moved and went fifty or more along an axis |
| Gesture.SwipeDirection | drivers/gesture.c:35-47 | a swipe names the direction the finger really went, along its longer axis |
| Gesture.OldTravelOutlivesPinchIff | drivers/gesture.c:89-167 | in any run, when a second finger comes, both move about and the second goes, lifting the first reports a swipe exactly when it went far: since the pinch began in slots 0 and 1, before and since together in slots 2 and 3 |
| Gesture.OldTravelReportedAsSwipe | drivers/gesture.c:89-167 | a concrete run that ends so |
| UhciTransfer.Uhci.TdAlloc | drivers/usb_uhci.c:74-81 | a cleared descriptor from the pool, or none when all 36 are used |
| UhciTransfer.Uhci.BuildAndAttach | drivers/usb_uhci.c:180-267 | either an error with the queue head untouched, exactly when data is missing or the length exceeds 34 packets, or the planned chain linked and attached |
| UhciTransfer.PoolSuffices | drivers/usb_uhci.c:74-81 | the pool holds the chain exactly for lengths up to 34 packets |
| UhciTransfer.PlanShape | drivers/usb_uhci.c:199-254 | field by field: set-up with toggle 0, the length in packets rounded up of data descriptors with toggles 1, 0, 1 and so on at packet-aligned offsets, then one status descriptor with toggle 1 that alone interrupts and goes the other way; each linked to the next |
| UhciTransfer.NoByteTwice | drivers/usb_uhci.c:223-239 | no two data descriptors ask for the same byte |
| UhciTransfer.AskedIffInPackets | drivers/usb_uhci.c:223-239 | together they ask for exactly the bytes of the length rounded up to packets |
| UhciTransfer.DescriptorsTileIff | drivers/usb_uhci.c:223-239 | they ask for exactly the bytes of the transfer if and only if its length is a multiple of the packet size |
| UhciTransfer.DescriptorsStayInBufferIff | drivers/usb_uhci.c:223-239 | they stay inside the 512-byte buffer if and only if the length rounded up to packets does |
| UhciTransfer.ShortTransferAsksForMore | drivers/usb_uhci.c:229-231 | ten bytes to send in packets of 64: one descriptor that asks for 64 |
| UhciTransfer.FullTransferLeavesBuffer | drivers/usb_uhci.c:229-231 | 512 bytes in packets of 100: the last descriptor reaches byte 599 |
| UhciTransfer.WalkVisitsInOrder | drivers/usb_uhci.c:233-254 | following the links visits each descriptor of the chain once, in order, and stops |

## Left out

- Device registers, busy-waiting, PCI, page allocation, LVGL drawing calls and console output: a timeout or a failed allocation is a nondeterministic outcome instead.
- NULL arguments: model values are never NULL, so the early returns for NULL pointers are not modelled; the uninitialised ring of zircon_ipc.c and the missing device of usb_uhci.c are in the same position.
- Signed overflow of window coordinates, finger coordinates and squared distances: these are unbounded integers here. Clock readings, ARP addresses, block addresses, command identifiers, ring indices and CRC words have their machine width.
- ArpCache.ResolveGivesLatestUpdate: leaves out runs in which a call uncovers a live entry that was replaced; in exactly those a lookup can answer with it (`UncoversIffStaleAnswer`).
- ArpCache.HeldUntilLost: the same runs.
- ArpCache.AnswersUntilLost: the same runs.
- ArpCache: packet handling, proxy replies and table dumps.
- ZirconIpc.ReceivedIsPrefixOfSent: sequential consistency with one producer and one consumer, as the ring is meant to be used; weaker memory orders are not modelled.
- NvmeQueue.NthTakenIsNthPosted: that the controller works on the commands as submitted is stated while submits find room; without it the waiting ones are lost (`SubmitWithoutRoomIsMissed`).
- NvmeDriver.Nvme.Transfer: a copy is promised only while no identifier it will use and no free page belongs to an unanswered command, and not in sectors that unanswered commands may still change; per command the condition is exact (`DeceivesIffTouched`).
- NvmeDriver.Nvme.ReadSectors: the same.
- NvmeDriver.Nvme.WriteSectors: the same.
- NvmeQueue: controller reset and queue creation commands have no effect in the model; a completion's posting and the command's effect on storage become visible together, though a running command may change its own range before that.
- Crc32: `calc_crc32` fills its table on first use; the model passes a filled table.
- AdbFraming: what `adb_poll` does with a packet, and `send_packet` with a length but no data.
- PanelsDe: creating windows and moving them between workspaces; results are about workspaces whose links form a tree.
- PanelsLayout.LayoutIsPartition: ratios are real numbers, so the rounding of `float` products is not modelled; only that a part lies between 0 and the whole is used.
- PanelsLayout: gaps, bars and minimum sizes of a leaf, which deliberately break the exact partition.
- AdBlock: loading built-in and file lists, statistics.
- AppHost: launching, container attachment and exit status.
- Virtqueue: collecting used descriptors, which changes an index the device owns.
- WindowManager: the LVGL objects behind the windows.
- UhciTransfer.Uhci.BuildAndAttach: stops at the attachment; waiting, detaching and copying back are not modelled, nor is the direction of the status stage when there is no data stage.
- The xHCI and EHCI drivers, HID reports, property storage, framebuffer, audio and container code.
