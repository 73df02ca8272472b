# Verified models of the driver and server code

Dafny 4.11 models of the stateful parts of this repository, with the properties their users rely on.
`dafny verify dfyconfig.toml` checks everything. One module per source file or component:

- **NAND driver** (`Bytes`, `NandCodes`, `NandEngine`, `NandDriver`, `NandRoundTrip`, `NandLocator`, `NandMarker`,
  `NandExample`): the page and spare-area functions of the S3C NAND driver over a chip (selected page, column,
  programming or reading) and an ECC engine (locked or listening, direction, bytes absorbed). What the engine's report
  says of the damage is a stated contract (`NandEngine.Corrects`), and `NandLocator` gives one concrete engine that
  meets it for one flipped bit.
- **Connection-table servers** (`Slots`, `ServerSelect`, `ServerPoll`, `EpollTable`, `EpollBatch`, `ServerEpoll`,
  `ServerPthread`): one table, four servers. The kernel side is the set of open descriptors; which descriptor `accept` returns, which descriptors are
  ready and which clients hang up are parameters, so every statement holds for every behaviour of kernel and clients.
- **Touchscreen** (`Touchscreen`): the interrupt and timer state machine and the ADC lock shared with another client.
- **RAM disk** (`RamDisk`, `Partition`): scatter-gather block requests over a flat array, and the partition tables.
- **Smaller cores**: the counter file (`CounterFile`), clock-source selection (`ClockSelect`), two-semaphore alternation
  (`Alternation`), the linked packet queue (`PacketQueue`), the in-place mount-option parser (`MountOptions`).

Code that changes state step by step is modelled by classes and methods proved against specification functions; the
properties of runs are lemmas about those functions. Words are naturals with explicit wrap-around.

## What the proofs found

- The 4-bit erased-page guess probes the chunk being corrected, although its comment speaks of the spare area. A
  damaged chunk that looks erased is left damaged: the 4-bit round trip holds exactly when that happens to no chunk, and
  when it does no failure is counted (`NandRoundTrip.Mlc4RoundTrip`); it does happen
  (`NandLocator.ErasedGuessLosesData`).
- The JFFS2 marker switches off the repair of the spare area, main codes included. With the marker read, the SLC round
  trip holds if and only if the medium left the stored main codes alone, as long as it damaged no chunk together with that
  chunk's code (`NandMarker.MarkerExact`, and `NandMarker.MarkerFate` in every case); so one bit read wrong in the spare
  area damages or loses an undamaged page, any page in any layout (`NandMarker.MarkerLosesData`). In the layout for 512-byte pages the two marker bytes are part of the page's own code,
  so page data alone can switch the repair off (`NandMarker.SmallPageMarker`, `NandMarker.SmallPageShowsMarker`).
- The forced unlock in `stylus_updown` gives up a lock the touchscreen does not own. Arbitration holds throughout a run
  if and only if no pen interrupt arrives while the other client holds the ADC (`Touchscreen.IntactIffUndisturbed`).
- `touch_timer_fire` returns at once when the touchscreen does not own the ADC, with the mode left as it is. The timer is
  pending exactly in WAIT4INT(1) if and only if no expiry found the lock gone (`Touchscreen.TimerExact`); after one that
  did, nothing is ever sampled or reported again (`Touchscreen.DeadForever`), and a pen-up interrupt that
  takes the lock while no client is inside a call never gives it back (`Touchscreen.FrozenForever`). Every configuration has such a run (`Touchscreen.FrozenRun`).
- When every clock source is too fast, unsigned wrap-around makes `sdhci_s3c_set_clock` pick the one that overshoots
  most (`ClockSelect.ChosenOvershootsMost`).
- The poll server's bound never comes down when a connection is closed, and can only be moved by a number that nothing
  ever stored (`ServerPoll.BoundMovesOnlyByJunk`). Its coverage holds all the same, and when descriptors are given out
  lowest first, at most nine are the process's own and the listener's is at most ncons + 8, poll() reads past the table
  in a run if and only if such a number, above ncons + 8, is picked up (`ServerPoll.WithinExact`); it can be
  (`ServerPoll.JunkPulls`).
- `accept_it` overwrites the event batch being walked through. The events of a batch are handled for the descriptors
  that were reported if and only if no accept fills a slot whose index is that of an event still pending: with the
  listener's event at `a` and the connections before it that hung up gone, if there is room and the first free slot lies
  above `a` and below the size of the batch, then exactly that event is handled for the new connection instead
  (`EpollBatch.HandledExact`, `ServerEpoll.EpollServer.Round`). `ServerEpoll.OverwriteHappens` is such a run. No record is
  lost or freed twice by it.
- epoll's search by descriptor is right under any rule for numbering new descriptors, not only the lowest-free rule.
- `accept_new_one` overwrites the descriptor of an open connection exactly when the table is full.

## Model

| member | source | states |
|---|---|---|
| NandEngine.ExactDecoder8 | 9_nand_driver/s3c_nand.c:637-694 | for every packed report of k errors, k ≤ 8, exactly the first k (location, pattern) pairs are XORed in, repeated locations included, no other byte changes, k is returned and a second application undoes it; k > 8 gives -1 and no change; a free page gives 0 and no change |
| NandEngine.ExactDecoder4 | 9_nand_driver/s3c_nand.c:591-637 | the same for k ≤ 4; a free page or a chunk that looks erased is left alone and 0 returned |
| NandEngine.ExactDecoder1 | 9_nand_driver/s3c_nand.c:559-591 | the same for the SLC status word: kind 1 flips exactly the named bit and gives 1, kind 0 gives 0, kinds 2 and 3 give -1 and no change |
| NandEngine.Restore1 | 9_nand_driver/s3c_nand.c:559-591 | SLC: data read with at most one flipped bit and its own code comes back as written and is not reported uncorrectable |
| NandEngine.DescribedIsUndone | 9_nand_driver/s3c_nand.c:656-688 | a report whose pairs combine, byte by byte, to the flipped bits undoes the damage, whatever their order and repetition |
| NandEngine.Restore8 | 9_nand_driver/s3c_nand.c:637-694 | 8-bit: when the report describes the flipped bits, the chunk comes back as written and is not reported uncorrectable |
| NandEngine.Restore4 | 9_nand_driver/s3c_nand.c:591-637 | 4-bit: the chunk comes back if and only if it was undamaged or does not look erased |
| NandCodes.Unpack8 | 9_nand_driver/s3c_nand.c:637-688 | the shifts and masks of the 8-bit path recover all eight pairs, the error count and the free-page override from the five registers |
| NandCodes.Unpack4 | 9_nand_driver/s3c_nand.c:591-631 | the same for the three registers of the 4-bit path |
| NandCodes.ReportWords | 9_nand_driver/s3c_nand.c:591-688 | the register layouts at concrete words: eight pairs and the count from one report, four pairs and the count from another, the free-page bit |
| NandCodes.ProbedBytes | 9_nand_driver/s3c_nand.c:606-608 | changing one byte of an all-ones chunk stops it looking erased exactly at bytes 17, 26, 35, 44 and 54 |
| NandCodes.PatchUndo | 9_nand_driver/s3c_nand.c:618-631 | correcting twice with the same pairs restores the buffer, whatever the pairs |
| NandCodes.PatchAnyOrder | 9_nand_driver/s3c_nand.c:618-631 | two lists with the same pairs, in any order, do the same to every buffer, so the falling order of the labels does not matter |
| NandCodes.HalvesRejoin | 9_nand_driver/s3c_nand.c:484-487 | the two words loaded for comparison determine the code word that was stored as four bytes |
| NandDriver.Nand.EnableHwecc | 9_nand_driver/s3c_nand.c:423-464 | the engine is unlocked and emptied, its direction set in the MLC modes only |
| NandDriver.Nand.SeekProgram | 9_nand_driver/s3c_nand.c:708 | the column is set and the chip put into programming |
| NandDriver.Nand.WriteBuf | 9_nand_driver/s3c_nand.c:712 | bytes sent while programming land in the page at the column, and an unlocked engine absorbs what is sent |
| NandDriver.Nand.CalculateEcc | 9_nand_driver/s3c_nand.c:471-534 | the engine is locked and the code of what it absorbed, byte for byte the registers (`NandEngine.CodeBytes`), is stored at the given place, except when an MLC code is being checked |
| NandEngine.CodeBytes | 9_nand_driver/s3c_nand.c:471-534 | byte 4j + k of a stored code is parity register j shifted right by 8k and masked to 8 bits: all 4 bytes in SLC, all 8 in 4-bit and all 13 in 8-bit mode |
| NandDriver.Nand.CorrectSlc | 9_nand_driver/s3c_nand.c:559-591 | the bytes named by the status word are corrected in place and nothing else in the buffer changes |
| NandDriver.Nand.CorrectMlc4 | 9_nand_driver/s3c_nand.c:591-637 | the fall-through switch, taken label by label on the buffer, does what the decoder specification says |
| NandDriver.Nand.CorrectMlc8 | 9_nand_driver/s3c_nand.c:637-694 | the same for its eight labels |
| NandDriver.Nand.WritePage1 | 9_nand_driver/s3c_nand.c:752-783 | the chip holds the page followed by the spare area with the main codes scattered and its own code appended |
| NandDriver.Nand.ReadPage1 | 9_nand_driver/s3c_nand.c:785-827 | the spare area is repaired first, then every chunk decoded with the code found in the repaired spare area; the failure counter grows by the number of -1 results |
| NandDriver.Nand.WriteOob1 | 9_nand_driver/s3c_nand.c:699-726 | only the spare area of the page changes; the result is -EIO exactly when programming failed |
| NandDriver.Nand.ReadOob1 | 9_nand_driver/s3c_nand.c:728-750 | the spare buffer holds the stored spare area, repaired unless the JFFS2 marker is read |
| NandDriver.Nand.WritePageMlc | 9_nand_driver/s3c_nand.c:1050-1070 | 8-bit and (lines 870-892) 4-bit: the chip holds the page followed by the spare area with all codes scattered |
| NandDriver.Nand.ReadPageMlc | 9_nand_driver/s3c_nand.c:1073-1108 | 8-bit and (lines 833-864) 4-bit: every chunk is decoded with the code at the offset computed from ecc.steps, and failures counted |
| NandRoundTrip.CodeFedBack | 9_nand_driver/s3c_nand.c:1066-1094 | with contiguous positions the code fed back for chunk s by offset is the one scattered for chunk s |
| NandRoundTrip.SpareBytesKept | 9_nand_driver/s3c_nand.c:1066-1067 | spare bytes outside the code positions keep the caller's values |
| NandRoundTrip.CodePlaced | 9_nand_driver/s3c_nand.c:752-772 | with distinct positions, byte m of the code of chunk s is written at position 4s + m, 8s + m or 13s + m of the layout, contiguous or not |
| NandRoundTrip.SealedSpare | 9_nand_driver/s3c_nand.c:774-783 | the last four bytes of a written spare area are the parity word of all the others, which are unchanged |
| NandRoundTrip.DecodeMainAt | 9_nand_driver/s3c_nand.c:1089-1105 | each chunk of the result depends on that chunk and its code alone |
| NandRoundTrip.FailuresCounted | 9_nand_driver/s3c_nand.c:1101-1102 | the failure counter grows by exactly the number of chunks reported uncorrectable |
| NandRoundTrip.SpareRoundTrip | 9_nand_driver/s3c_nand.c:774-808 | a spare area with one flipped bit outside its own code is restored, unless the JFFS2 marker is read |
| NandRoundTrip.SlcRoundTrip | 9_nand_driver/s3c_nand.c:752-827 | two-level SLC round trip: one flip per chunk and one in the protected spare bytes leave the page and the spare area recoverable, for any number of chunks and any contiguous layout before the spare code |
| NandMarker.WrongCodeShows | 9_nand_driver/s3c_nand.c:559-591 | undamaged data checked with a code is left unchanged and not refused if and only if the code is its own |
| NandMarker.MarkerFate | 9_nand_driver/s3c_nand.c:806-824 | with the marker read, for every page, layout and number of chunks and everything the medium may do: the SLC round trip holds if and only if every stored main code was read as written or the engine, given the wrong code, blames just the damage of its chunk |
| NandMarker.MarkerExact | 9_nand_driver/s3c_nand.c:806-824 | with the marker read, for every page, layout and number of chunks, the SLC round trip holds if and only if the stored main codes were read as written, as long as no chunk is damaged together with its own code |
| NandMarker.MarkerLosesData | 9_nand_driver/s3c_nand.c:806-824 | for every page, spare area and layout whose written spare area shows the marker, there is a read with one wrong bit, none of it in the page, after which the page is damaged or a failure counted |
| NandMarker.LargePageMarker | 9_nand_driver/s3c_nand.c:128-135 | in the 2048-byte-page layout the marker is written exactly when the file system supplies it |
| NandMarker.SmallPageMarker | 9_nand_driver/s3c_nand.c:119-125 | in the 512-byte-page layout it is written exactly when two bytes of the page's code are the marker, whatever the file system supplies |
| NandMarker.SmallPageShowsMarker | 9_nand_driver/s3c_nand.c:119-125 | a page whose code, by the concrete engine, is the marker |
| NandMarker.SmallPageLost | 9_nand_driver/s3c_nand.c:119-125 | by the concrete engine, a 512-byte page and a read with one wrong bit in its spare area from which the page does not come back |
| NandRoundTrip.Mlc8RoundTrip | 9_nand_driver/s3c_nand.c:1050-1108 | 8-bit round trip over any number of chunks |
| NandRoundTrip.Mlc8ChunkRestored | 9_nand_driver/s3c_nand.c:1089-1102 | a chunk within the engine's reach is restored whatever happened to the others |
| NandRoundTrip.Mlc4RoundTrip | 9_nand_driver/s3c_nand.c:833-892 | 4-bit round trip, if and only if no damaged chunk looks erased; in either case no failure is counted |
| NandRoundTrip.StoreAndLoad1 | 9_nand_driver/s3c_nand.c:752-827 | write_page_1bit, an aging medium and read_page_1bit in sequence: the second buffer receives the first, no failure is counted, the spare buffer is restored |
| NandRoundTrip.StoreAndLoad8 | 9_nand_driver/s3c_nand.c:1050-1108 | the same for the 8-bit functions |
| NandRoundTrip.StoreAndLoad4 | 9_nand_driver/s3c_nand.c:833-892 | the same for the 4-bit functions, with the exact condition, the failure counter unchanged either way |
| NandExample.LargePage | 9_nand_driver/s3c_nand.c:128-135 | the concrete engine, the 2048-byte-page layout and any one flipped bit of the page meet every hypothesis of the SLC round trip at once |
| NandLocator.LocatorCorrects | 9_nand_driver/s3c_nand.c:546-697 | in all three modes a concrete code meets the decoder contract for one flipped bit, so the round trips are not vacuous; its registers all differ, and in the MLC modes the position is in the third of four and in the second of two |
| NandMarker.LocatorCompares | 9_nand_driver/s3c_nand.c:566-573 | that code reports no error exactly when the stored code is the data's own |
| NandLocator.LocatorInRange | 9_nand_driver/s3c_nand.c:546-697 | that code never names a byte outside the chunk, as the driver needs of every engine |
| NandLocator.ErasedGuessLosesData | 9_nand_driver/s3c_nand.c:606-608 | a chunk with one correctable flip that the erased-page guess leaves wrong and does not report |
| Slots.AcceptOne | linux_kernel/lab53/lab_server.h:116-133 | the first free slot receives the new descriptor, and no other entry changes |
| Slots.AcceptNewOne | linux_kernel/lab53/lab_server.h:92-115 | the slot where the wrapping scan from the last one stops (`Slots.RoundRobin`) receives the new descriptor, and no other entry changes |
| Slots.RoundRobin | linux_kernel/lab53/lab_server.h:101-113 | the scan stops on the first free slot going round from where it starts, if and only if the table is not full; in a full table it comes back to its start, an open slot |
| Slots.GetMaxFd | linux_kernel/lab53/lab_server.h:197-204 | the loop computes the bound the next row describes |
| Slots.MaxFdLeast | linux_kernel/lab53/lab_server.h:197-204 | the result is the least number not below the given bound and every open descriptor |
| Slots.FdsCounted | linux_kernel/lab53/lab_server.h:116-133 | distinct descriptors are as many as open slots |
| ServerSelect.AcceptKeeps | linux_kernel/lab53/lab53_server_select.c:67-81 | accepting keeps the invariant: fdset is the listener and the open slots' descriptors, nopen counts them, they are distinct and within fdmax |
| ServerSelect.TerminateKeeps | linux_kernel/lab53/lab53_server_select.c:13-23 | closing keeps the invariant and never lowers fdmax |
| ServerSelect.SelectServer.Select | linux_kernel/lab53/lab53_server_select.c:55-58 | no watched descriptor lies above the bound given to select, so every ready one is reported |
| ServerSelect.SelectServer.Round | linux_kernel/lab53/lab53_server_select.c:51-89 | handle_client is called once on every reported connection and on nothing else, never on one accepted in the same round; exactly the connections that hang up leave the set |
| ServerSelect.SelectServer.Run | linux_kernel/lab53/lab53_server_select.c:51-89 | the invariant holds, and nopen ≤ ncons, after any number of rounds |
| ServerPoll.SlotFree | linux_kernel/lab53/lab53_server_poll.c:86-92 | although accept_one never looks at slot ncons, with fewer than ncons connections it ends on a free slot from 1 to ncons |
| ServerPoll.SlotWithinBound | linux_kernel/lab53/lab53_server_poll.c:91-98 | by pigeonhole on distinct descriptors, the slot filled is not above the new descriptor bound |
| ServerPoll.AcceptKeeps | linux_kernel/lab53/lab53_server_poll.c:86-103 | accepting keeps every open slot index and descriptor within fdmax |
| ServerPoll.TerminateKeeps | linux_kernel/lab53/lab53_server_poll.c:14-26 | closing keeps that too |
| ServerPoll.BoundMovesOnlyByJunk | linux_kernel/lab53/lab53_server_poll.c:24-25 | when closing changes fdmax at all, it is because cd[0], never assigned, held a larger number |
| ServerPoll.LowestSmall | linux_kernel/lab53/lab53_server_poll.c:91-98 | under the lowest-free rule, with at most nine descriptors of its own, a new descriptor is at most ncons + 8 |
| ServerPoll.TerminateWithin | linux_kernel/lab53/lab53_server_poll.c:24-25 | closing takes the bound past the table exactly when the descriptor at the bound is closed, slot 0 is marked and cd[0] holds a number above ncons + 8 |
| ServerPoll.WithinExact | linux_kernel/lab53/lab53_server_poll.c:68-114 | over whole runs under the lowest-free rule, with at most nine own descriptors and sd at most ncons + 8: poll() never reads past the table if and only if no connection at the bound is closed while cd[0] holds a number above ncons + 8 |
| ServerPoll.JunkPulls | linux_kernel/lab53/lab53_server_poll.c:24-25 | a run in which one client connects and leaves and the bound becomes 100 in a table of ten entries |
| ServerPoll.AcceptUnreported | linux_kernel/lab53/lab53_server_poll.c:86-111 | a connection accepted after poll returned is not taken for a ready one |
| ServerPoll.PollServer.Poll | linux_kernel/lab53/lab53_server_poll.c:72-77 | with fdmax + 1 as the number of entries, the events of every open connection and of the listener are seen; under the lowest-free rule, with at most nine own descriptors and nothing large in cd[0] or sd, no entry past the table is read |
| ServerPoll.PollServer.Round | linux_kernel/lab53/lab53_server_poll.c:68-114 | each ready connection is served once, nothing else is, and exactly those that hang up leave |
| ServerPoll.PollServer.Run | linux_kernel/lab53/lab53_server_poll.c:68-114 | in any run every open slot stays covered and nopen ≤ ncons, and under the same conditions the bound stays inside the table |
| EpollTable.AcceptKeeps | linux_kernel/lab53/lab53_server_epoll.c:37-58 | filling the first free slot keeps every open connection the first match for its descriptor, stale entries included |
| EpollTable.TerminateFinds | linux_kernel/lab53/lab53_server_epoll.c:19-35 | the first match by descriptor, which ignores isopen, is the open slot of that connection |
| EpollTable.LockstepAccept | linux_kernel/lab53/lab53_server_epoll.c:45-49 | under the lowest-free rule a reused slot gets the very descriptor it had, a new slot the next one |
| EpollTable.LockstepTerminate | linux_kernel/lab53/lab53_server_epoll.c:19-35 | closing a connection keeps the lockstep, its stale entry included |
| EpollTable.LockstepNumbers | linux_kernel/lab53/lab53_server_epoll.c:19-58 | in lockstep, slot i of the used prefix holds descriptor base + i, open or stale |
| ServerEpoll.RecordsCounted | linux_kernel/lab53/lab53_server_epoll.c:48-53 | one live record per registered descriptor |
| ServerEpoll.EpollServer.TerminateClient | linux_kernel/lab53/lab53_server_epoll.c:19-35 | the connection's slot is released and exactly its record freed |
| ServerEpoll.EpollServer.AcceptIt | linux_kernel/lab53/lab53_server_epoll.c:37-58 | a record for the new descriptor is added and overwrites the event entry of the same index |
| ServerEpoll.EpollServer.StillPending | linux_kernel/lab53/lab53_server_epoll.c:50-53 | after that overwriting every entry still to be handled is a live record, registered for its descriptor |
| EpollBatch.HandledExact | linux_kernel/lab53/lab53_server_epoll.c:99-129 | the descriptors handled are those reported if and only if no accept overwrites a pending event, and otherwise differ in exactly that event, which gets the new connection; when an accept happens and which slot it fills follow from the table and the hangups before it |
| EpollBatch.BatchLeaves | linux_kernel/lab53/lab53_server_epoll.c:99-129 | after a batch the open connections are those before it, less those handled that hung up, plus the one accepted, which may itself have left again |
| EpollBatch.HangupsOnly | linux_kernel/lab53/lab53_server_epoll.c:121-127 | events of connections leave the buffer alone and close exactly those that hang up |
| ServerEpoll.EpollServer.HandleEvent | linux_kernel/lab53/lab53_server_epoll.c:111-128 | one event takes the table and the buffer through the step those lemmas describe, and what is left to handle stays live |
| ServerEpoll.EpollServer.Round | linux_kernel/lab53/lab53_server_epoll.c:99-129 | the loop does what those lemmas say: the exact condition for handling what was reported, the event and descriptor of the exception, and who leaves |
| ServerEpoll.OverwriteHappens | linux_kernel/lab53/lab53_server_epoll.c:45-53 | a run from the start in which epoll_wait reports the listener and descriptor 5 and handle_client is called on the new descriptor 6 instead of 5 |
| ServerEpoll.EpollServer.RecordConservation | linux_kernel/lab53/lab53_server_epoll.c:19-58 | live records are nopen + 1, and each open connection owns one that names its descriptor |
| ServerEpoll.EpollServer.Run | linux_kernel/lab53/lab53_server_epoll.c:99-129 | that, and 0 ≤ nopen ≤ ncons, after any number of rounds |
| ServerPthread.RoomToScan | linux_kernel/lab53/lab53_server_pthread.c:81-87 | leaving the spin loop, a free slot exists although slots are cleared outside the lock |
| ServerPthread.Conservation | linux_kernel/lab53/lab53_server_pthread.c:18-108 | in every interleaving nopen is the workers that have not decremented plus a connection counted and not yet spawned, 0 ≤ nopen ≤ ncons, accept_one stops below ncons on a free slot, serving workers own different slots, and one thread at a time is in the locked section |
| ServerPthread.StaysPut | linux_kernel/lab53/lab53_server_pthread.c:18-108 | in every reachable state the acceptor stays where it is exactly when nopen is ncons in the spin loop or the mutex is held, and a worker exactly when its client stays, the mutex is held or it is done |
| ServerPthread.AcceptsWhenRoom | linux_kernel/lab53/lab53_server_pthread.c:78-106 | from every reachable state with nopen below ncons, or an accept under way, there is a continuation after which one more worker serves, in a slot that was free or already marked for it, with the slots of all others as they were |
| ServerPthread.LeavesWhenDone | linux_kernel/lab53/lab53_server_pthread.c:18-39 | from every reachable state, for every serving worker there is a continuation after which it is done, its slot free, nopen one lower than what the thread in the locked section leaves it at, the mutex free and nobody else moved |
| Touchscreen.Driver.StylusUpdown | 6_input_driver/2_touch_screen_drivers/s3c-ts.c:300-338 | the handler takes the step the specification describes, forced unlock included |
| Touchscreen.Driver.StylusAction | 6_input_driver/2_touch_screen_drivers/s3c-ts.c:384-432 | likewise for a completed conversion |
| Touchscreen.Driver.TouchTimerFire | 6_input_driver/2_touch_screen_drivers/s3c-ts.c:174-295 | the timer takes the step the specification describes; `Touchscreen.ReportsExact` says what that reports |
| Touchscreen.Drive | 6_input_driver/2_touch_screen_drivers/s3c-ts.c:117-432 | any sequence of events drives the driver through the states of the run |
| Touchscreen.TouchesComplete | 6_input_driver/2_touch_screen_drivers/s3c-ts.c:174-432 | in every run, however the lock is abused, nothing but the sum of exactly 2^shift conversions made since the last restart is reported as a touch, it is within 2^shift times the largest sample, and the timer is never pending outside WAIT4INT(1) |
| Touchscreen.ReportsExact | 6_input_driver/2_touch_screen_drivers/s3c-ts.c:174-432 | over every legal run, event by event: an expiry that finds the touchscreen owning the ADC finds WAIT4INT(1) and 2^shift conversions taken since the restart, and adds one report, the totals of their 12- or 10-bit readings with the pen down, a lift with the pen up; a pen interrupt that gets the lock and then sees the pen up adds a lift; no other event reports anything |
| Touchscreen.TouchingReports | 6_input_driver/2_touch_screen_drivers/s3c-ts.c:174-432 | for every configuration and any readings: pen down and then n rounds of 2^shift conversions and an expiry is a legal run that reports n touches, the totals of each round in order |
| Touchscreen.PenStroke | 6_input_driver/2_touch_screen_drivers/s3c-ts.c:174-432 | with one more round at whose expiry the pen is up it reports a lift and ends in WAIT4INT(0), lock free, semaphore 1, timer off |
| Touchscreen.Pow2Adds | 6_input_driver/2_touch_screen_drivers/s3c-ts.c:420 | the number of conversions per touch is 1 << shift: 1 and 2 at 0 and 1, and sums go to products |
| Touchscreen.TimerExact | 6_input_driver/2_touch_screen_drivers/s3c-ts.c:174-338 | in every run the timer is pending exactly in WAIT4INT(1) if and only if every expiry so far found the touchscreen owning the ADC |
| Touchscreen.DeadForever | 6_input_driver/2_touch_screen_drivers/s3c-ts.c:174-432 | once in WAIT4INT(1) with no timer pending, no run ever samples or reports again, whoever takes the lock |
| Touchscreen.FrozenForever | 6_input_driver/2_touch_screen_drivers/s3c-ts.c:174-432 | if the touchscreen then also owns the ADC and no client is inside a call, no run changes anything again, so no client ever gets the ADC |
| Touchscreen.FrozenRun | 6_input_driver/2_touch_screen_drivers/s3c-ts.c:300-338 | for every configuration and any readings, a run from the start that ends so: two pen interrupts during the client's hold, sampling, the client's release, the expiry, a pen-up interrupt |
| Touchscreen.ArbitratedStep | 6_input_driver/2_touch_screen_drivers/s3c-ts.c:117-164 | one step keeps arbitration intact exactly when it is not a pen interrupt during the client's hold; a pen interrupt in the middle of a client's call changes nothing |
| Touchscreen.IntactIffUndisturbed | 6_input_driver/2_touch_screen_drivers/s3c-ts.c:117-338 | over whole runs, with the client's acquire and release taken apart into their two steps each: the semaphore is 1 exactly when the lock is free outside a half-done call, at most one call is half done, and the client holds the ADC exactly when the lock says so, at every point, if and only if no pen interrupt arrives between the end of an acquire and the start of its release |
| Touchscreen.Driver.AcquireIo | 6_input_driver/2_touch_screen_drivers/s3c-ts.c:133-151 | undivided, the call takes the lock for the client or changes nothing |
| Touchscreen.Driver.ReleaseIo | 6_input_driver/2_touch_screen_drivers/s3c-ts.c:153-166 | undivided, the call frees the lock and ups the semaphore |
| Touchscreen.OwnedSteps | 6_input_driver/2_touch_screen_drivers/s3c-ts.c:117-432 | in such runs the sums and the mode register change only under the touchscreen's ownership, and a report covers every conversion since the restart |
| Touchscreen.StalledUntilRetaken | 6_input_driver/2_touch_screen_drivers/s3c-ts.c:174-432 | in every run, sampling that has lost the lock stays without it if and only if no pen interrupt retakes it, and until then no conversion is added, no touch reported and the mode register not moved; a retake after the timer has expired revives nothing (`Touchscreen.DeadForever`) |
| Touchscreen.DisturbedRuns | 6_input_driver/2_touch_screen_drivers/s3c-ts.c:305-316 | runs in which the forced unlock leaves the semaphore at 2, or sampling going with nobody owning the ADC |
| RamDisk.TransferIsFlat | linux_kernel/lab46/ram_block.c:70-96 | moving segment by segment equals one contiguous write, or one contiguous read laid out over the segments, however the segments overlap in memory |
| RamDisk.GatherScatter | linux_kernel/lab46/ram_block.c:70-96 | disjoint segments hold, after a read, exactly the bytes read, in order |
| RamDisk.ScatterKeeps | linux_kernel/lab46/ram_device.c:34-38 | memory outside the segments is untouched |
| RamDisk.BytesWritten | linux_kernel/lab46/ram_block.c:72-96 | byte k of segment i of a write lands at 512 times the request's sector, plus the whole sectors of the segments before it, plus k |
| RamDisk.BytesRead | linux_kernel/lab46/ram_block.c:72-96 | a read into disjoint segments fetches byte k of segment i from there |
| RamDisk.TotalNext | linux_kernel/lab46/ram_block.c:84-95 | each segment advances the disk position by its whole sectors |
| RamDisk.StatusMeans | linux_kernel/lab46/ram_block.c:70-103 | status 0 if and only if every length is a multiple of 512 and they add up to 512 times the request's sectors, -5 otherwise |
| RamDisk.UntouchedKept | linux_kernel/lab46/ram_block.c:109-135 | bytes that no request of a queue writes are the same after it |
| RamDisk.ReadsBackWrite | linux_kernel/lab46/ram_block.c:109-135 | a read returns what the last write of that run stored, however differently the two are segmented and whatever came between |
| RamDisk.ServedLast | linux_kernel/lab46/ram_block.c:109-135 | the request served last acts on what all the earlier ones left |
| RamDisk.RamBlock.DeviceWrite | linux_kernel/lab46/ram_device.c:29-33 | the sectors named receive the buffer, all other bytes stay |
| RamDisk.RamBlock.DeviceRead | linux_kernel/lab46/ram_device.c:34-38 | the segment receives the sectors named, the disk stays |
| RamDisk.RamBlock.Transfer | linux_kernel/lab46/ram_block.c:53-104 | the segment loop has the specified effect and status |
| RamDisk.RamBlock.ServeQueue | linux_kernel/lab46/ram_block.c:109-135 | draining the queue applies the requests in order to one flat disk and completes each once with its own status |
| Partition.EntryBack | linux_kernel/lab46/partition_info.c:21-34 | a 16-byte entry is read back bit for bit, the 6/2-bit sector and cylinder split included |
| Partition.EntryBytes | linux_kernel/lab46/partition.c:22-36 | the 16 bytes of an entry, each given by its field, little-endian, sector and high cylinder bits sharing a byte |
| Partition.SectorBytes | linux_kernel/lab46/partition.c:152-166 | the 512 bytes of a boot sector: signature at 440, entries from 446, 0x55 and 0xAA at the end, zeroes elsewhere |
| Partition.SectorBack | linux_kernel/lab46/partition.c:152-166 | a written sector reads back as its table, its disk signature and 0xAA55 |
| Partition.RecordBack | linux_kernel/lab46/partition.c:159-176 | the 512 bytes at 16384 times a cylinder are the boot record last written for it, and read back as its table, for any list of tables |
| Partition.MbrBack | linux_kernel/lab46/partition.c:152-176 | the MBR, with disk signature 0x36E5756D, is read back if and only if no boot record is put in cylinder 0 |
| Partition.OutsideKept | linux_kernel/lab46/partition.c:152-176 | every byte outside the written sectors is unchanged |
| Partition.CopyMbrNBr | linux_kernel/lab46/partition.c:167-176 | the clearing and storing loop leaves the disk those lemmas describe |
| Partition.TableThroughDriver | linux_kernel/lab46/ram_device.c:14-23 | a one-sector read through the block driver of the freshly partitioned disk decodes to the table put there |
| Partition.ChsBijection | linux_kernel/lab46/partition_info.c:45-52 | the printed head, cylinder and sector and the linear sector number determine each other |
| CounterFile.DecimalBack | linux_kernel/lab42/lab42.c:80-117 | parsing inverts printing for every int, and longer numbers come back wrapped to 32 bits |
| CounterFile.TextFits | linux_kernel/lab42/lab42.c:71-80 | the text has at most 12 characters, so it always fits the 20-byte buffer |
| CounterFile.PrintedOnce | linux_kernel/lab42/lab42.c:80 | for every number there is at most one text of a '-' if negative, digits without a leading zero whose positional value is its magnitude, and a newline, and a text belongs to one number |
| CounterFile.StrtolMeans | linux_kernel/lab42/lab42.c:117 | what is parsed is, modulo 2^32, the number made of an optional '-' and all the digits that follow it |
| CounterFile.CounterFile.Read | linux_kernel/lab42/lab42.c:66-92 | one read returns its part of the text, decimal digits and one newline, of the counter as it was before the pass; a read at offset 0 makes the counter v + 1, or -2^31 from 2^31 - 1, others leave it; -EFAULT, or 0 past the end, with no bytes |
| CounterFile.CounterFile.Write | linux_kernel/lab42/lab42.c:96-119 | one write: the error cases change nothing, otherwise the counter is, modulo 2^32, the number the text starts with |
| CounterFile.ReadInPieces | linux_kernel/lab42/lab42.c:66-92 | positive-size reads of any sizes join up to the decimal text of the counter and advance it once, by one or round to -2^31 |
| CounterFile.ReadThenRestore | linux_kernel/lab42/lab42.c:66-119 | after the text there are no more bytes, and writing the text back restores every 32-bit value |
| ClockSelect.DividerBest | 10_MMC_driver/sdhci-s3c.c:177-182 | the divider search finds the fastest output that is not too fast, if any of 1, 2, ..., 256 gives one |
| ClockSelect.DeltaMeans | 10_MMC_driver/sdhci-s3c.c:166-188 | the returned difference is the shortfall, or the excess wrapped round 2^32 |
| ClockSelect.ReachableWins | 10_MMC_driver/sdhci-s3c.c:205-217 | a wrapped difference never beats a source that reaches the clock |
| ClockSelect.ChosenIsOptimal | 10_MMC_driver/sdhci-s3c.c:205-217 | when some source reaches the clock, the chosen one gives the best output of all sources and dividers, if and only if it is not the case that UINT_MAX is asked for, no clock runs and source 0 is absent |
| ClockSelect.ChosenOvershootsMost | 10_MMC_driver/sdhci-s3c.c:205-217 | when none does, the chosen one overshoots most, and when it is an absent one |
| ClockSelect.SdhciS3c.ConsiderClock | 10_MMC_driver/sdhci-s3c.c:166-188 | the loop computes the difference of one source |
| ClockSelect.SdhciS3c.FindSource | 10_MMC_driver/sdhci-s3c.c:200-217 | the loop returns the first source with the least difference |
| ClockSelect.SdhciS3c.SetClock | 10_MMC_driver/sdhci-s3c.c:198-252 | cur_clk, max_clk, timeout_clk and CONTROL2 after a change of source, and that nothing is written without one |
| ClockSelect.SdhciS3c.CheckSclk | 10_MMC_driver/sdhci-s3c.c:72-84 | the clock field is restored to cur_clk and the other bits kept |
| ClockSelect.SdhciS3c.GetMaxClk | 10_MMC_driver/sdhci-s3c.c:92-114 | the rate of the fastest present source, or 0 |
| Alternation.Alternates | linux_kernel/lab29/lab29.c:16-53 | in every interleaving the output is a prefix of a0, b0, a1, b1, ... and there is exactly one token |
| Alternation.NeverStuck | linux_kernel/lab29/lab29.c:16-43 | a reachable state that is not final has exactly one thread that can move |
| Alternation.Terminates | linux_kernel/lab29/lab29.c:16-43 | no run makes more than 6n moves, and one that makes them all has printed everything |
| PacketQueue.Device.Write | linux_kernel/lab9/lab9.c:162-191 | the first 120 bytes become the newest record and its node the last of the list; failures leave the list alone |
| PacketQueue.Device.Read | linux_kernel/lab9/lab9.c:193-218 | the oldest record leaves the list and its first bytes are returned; a failed copy loses it and leaks its buffer |
| PacketQueue.FifoOrder | linux_kernel/lab9/lab9.c:162-218 | the k-th read returns a prefix of the k-th record written, and what is left is the records written after those |
| PacketQueue.Drive | linux_kernel/lab9/lab9.c:162-218 | a device used through successful operations behaves as the abstract queue and frees every buffer it gives up |
| MountOptions.TokensJoin | file_system/2day/super.c:75 | the tokens are the comma-free pieces of the option string |
| MountOptions.LastPositiveWins | file_system/2day/super.c:81-94 | from the text of the options: rsize ends up as the number after the first '=' of the last option whose name starts with rsize in either case and whose number is positive, or as it was if there is none; the same for wsize |
| MountOptions.Strsep | file_system/2day/super.c:75 | the token ends at the first comma, which is cut out of the string |
| MountOptions.CutAt | file_system/2day/super.c:75-79 | which characters of the whole string that is |
| MountOptions.ParseMountOptions | file_system/2day/super.c:65-95 | the in-place loop gives the fields rsize and wsize those values, and overwrites exactly the commas and each '=' with no other before it since the last comma |

## Left out

- The ECC mathematics: the engine is any functions meeting `NandEngine.Corrects` and, for the results about the JFFS2 marker, `NandEngine.Compares` (no error is reported exactly for the data's own code); error locations outside the bytes absorbed are excluded by `NandEngine.InRange`.
- NandRoundTrip.SlcRoundTrip: excludes reads that show the JFFS2 marker while the stored main codes are damaged; `NandMarker.MarkerFate` says what happens then.
- NandMarker.MarkerExact: leaves out a chunk damaged together with its own stored code; `NandMarker.MarkerFate` covers it in terms of what the engine reports of that chunk and code, which no contract settles.
- NandLocator.LocatorCorrects: covers one flipped bit per chunk, because the engine's real multi-error code is not in the repository.
- NandRoundTrip.Mlc8RoundTrip: takes the spare area as read without error and ecc.steps equal to writesize / 512, because the MLC codes are stored unprotected and located through ecc.steps.
- The MTD core's own call that selects column 0 before a page writer is entered is not part of this model; the round trips make it themselves.
- The null check on the page buffer, NFCONF mode bits, wait loops, the page-program command, bit clearing by real programming, and chip probing.
- accept, select, poll and epoll_wait failures (the servers exit), socket content, and the fork server.
- select's FD_SETSIZE: descriptors at or above 1024 are not modelled as memory corruption.
- ServerPoll.PollServer.Look: when the descriptor bound does exceed the table, which `ServerPoll.PollServer.Poll` excludes under stated conditions, the entries read beyond it are not modelled; the events field is taken as set with fd.
- ServerPthread.AcceptsWhenRoom: says that a continuation exists, not that a scheduler takes it; fairness is not part of this model.
- ServerPthread.Conservation: does not say that close(cd[ci]) closes the worker's own descriptor, because the slot can be reused before the close.
- Interrupt handlers and the timer are steps that nothing interrupts, as on one processor; only the client's calls are taken apart.
- The touchscreen's Android transform, probing, suspend and the ADC_TYPE_2 interrupt-clear writes; the accumulators are unbounded, and `Touchscreen.TouchesComplete` bounds them.
- Locking of the block request queue, module start-up, and memory pages as anything but byte sequences.
- The concrete default partition tables; the general writer is proved instead.
- Reads of a counter file interleaved with other readers, and an unsuccessful copy_to_user in the middle of a pass.
- CONTROL2's bit layout: the mask and shift come from a header that is not part of this model, so the register is a clock field and other bits; card configuration callbacks are left out.
- ClockSelect.SdhciS3c.SetClock: what clk_get_rate gives for an absent clock is a parameter, because the clock framework is not part of this model.
- simple_strtoul in the mount options is a parameter; simple_strtol in the counter file accepts an optional '-' and decimal digits.
- Ioctls, open and busy flags of the packet device.
