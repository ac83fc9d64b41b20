# Page-replacement simulators, modelled in Dafny

This project models the three memory-management-unit simulators in `prac2/`. Each one has a fixed number of page frames. It serves a stream of `read_memory(page)` and `write_memory(page)` requests and counts page faults, disk reads and disk writes (write-backs of dirty pages):

- `clock.dfy`, module `Clock`, models `ClockMMU`, the second-chance policy. It keeps a frame array, one reference bit per frame and a rotating hand. On a fault the hand sweeps forward, clearing set bits, until it reaches a frame whose bit is clear. That frame is the victim.
- `lru.dfy`, module `Lru`, models `LruMMU`, least-recently-used replacement. A logical clock stamps every request, and a free-frame list supplies frames. When no frame is free, the resident page with the oldest stamp is evicted.
- `rand.dfy`, module `Rand`, models `RandMMU`, random replacement. It keeps a list of resident pages and a dirty map. When the list is full, a fault evicts a resident page drawn at random.

Each module is built the same way:

- A datatype holds the whole simulator state, field for field. The one exception is `ClockState`, which stores no frame count: the number of frames is the length of its frame list.
- Functions describe one request on that value (`Access`, with `Hit`/`Fault` or `Touch`/`Load`/`Evict`).
- Lemmas prove the simulator's promises about those functions:
  - which counters change, and by how much;
  - what a hit changes;
  - which page is evicted, and when it is written back;
  - that the page tables and frames stay consistent.
- A class with the source's own fields is proved to follow that model:
  - `ReadMemory`/`WriteMemory` ensure `State() == Access(old(State()), …)` and keep the invariant `Valid()`;
  - the inner steps equal their own abstract functions: `ClockMmu.FindVictimFrame` equals `Sweep`, `ClockMmu.HandleFault` and `RandMmu.LoadPage` equal `Fault`, `LruMmu.LruPaging` equals `Evict`, and `LruMmu.AccessPage` equals `Access`;
  - the getters, `RandMmu.ChooseVictim` and `LruMmu.LeastRecentlyUsed` change no state and state what they return.

Two algorithms run as loops in the class:

- the clock sweep (`find_victim_frame`);
- the search for the least recently used page (`min(last_used, key=…)`).

Each loop is proved against a recursive or declarative specification.

## Model

| member | source | states |
|---|---|---|
| Clock.Sweep | prac2/clockmmu.py:99-111 | The sweep stops on a victim frame whose bit is now clear. The hand ends one frame past the victim. No bit is set that was not set before. |
| Clock.Steps | prac2/clockmmu.py:101-111 | The sweep examines at least 1 frame and at most (set bits + 1) ≤ frames + 1 frames, so `while True` terminates. |
| Clock.SweepFindsFirstClear | prac2/clockmmu.py:101-111 | Let k be the number of frames passed over. They are the k frames straight ahead of the hand, and each had its bit set. The victim is the next frame, and its bit was clear. If every bit was set, k equals the number of frames and the victim is the frame the hand started on. |
| Clock.SweepClearsPassed | prac2/clockmmu.py:108-111 | The sweep clears exactly the bits of the frames it passed over. Every other bit is unchanged. |
| Clock.AheadModulo | prac2/clockmmu.py:106 | Stepping the hand forward equals the source's `(clock_hand + 1) % frames` arithmetic. |
| Clock.Init | prac2/clockmmu.py:5-16 | The initial state has the requested number of frames, all empty, and an empty page table. It satisfies the consistency invariant. |
| Clock.Hit | prac2/clockmmu.py:64-71 | Defines a hit (also read_memory's, lines 29-34): set the bit of the page's frame, and on a write store the page dirty. Its properties are stated by Clock.AccessHit. |
| Clock.Fault | prac2/clockmmu.py:35-60 | Defines a page fault (also write_memory's, lines 72-97): count a fault and a read, sweep for a victim, write it back when dirty, drop its page, load the new page with its bit set. Its properties are stated by Clock.AccessMiss and Clock.ClockMmu.HandleFault. |
| Clock.Access | prac2/clockmmu.py:27-97 | Defines one request as a hit or a fault on whether the page is in the page table. Its properties are stated by Clock.AccessPreservesConsistent, Clock.AccessHit and Clock.AccessMiss. |
| Clock.AccessPreservesConsistent | prac2/clockmmu.py:27-97 | Every read or write keeps these facts true: page table and frames form a bijection between resident pages and occupied frames; the hand is on a frame; `page_faults == disk_reads`; `disk_writes <= page_faults`. |
| Clock.AccessHit | prac2/clockmmu.py:29-34 | A hit leaves the counters, the page table and the hand unchanged. It sets the reference bit of the page's frame. A write hit marks the page dirty, and a read hit keeps its dirty flag. No other frame or bit changes. |
| Clock.AccessMiss | prac2/clockmmu.py:35-60 | A miss adds exactly one fault and one disk read. It adds one disk write exactly when the victim frame held a dirty page. The victim's page leaves the page table. The new page takes the victim's frame, clean on a read and dirty on a write; every other frame is unchanged. The new bits are the sweep's bits with the victim's bit set. The hand ends where the sweep left it. Every other page-table entry is unchanged. |
| Clock.ResidentBound | prac2/clockmmu.py:50-56 | Under the invariant, no more pages are resident than there are frames. |
| Clock.ClockMmu.constructor | prac2/clockmmu.py:5-16 | A new simulator is valid and equals `Init(frames)`. |
| Clock.ClockMmu.FindVictimFrame | prac2/clockmmu.py:99-111 | The loop returns the victim, the bits and the hand that `Sweep` computes, and keeps the hand below `frames`. |
| Clock.ClockMmu.HandleFault | prac2/clockmmu.py:37-57 | The fault branch gives exactly the state `Fault` describes: counters, the write-back, removal of the victim's page, and loading the new page with its bit set. |
| Clock.ClockMmu.ReadMemory | prac2/clockmmu.py:27-60 | A read is the abstract `Access` with `write` false, and it keeps `Valid()`. |
| Clock.ClockMmu.WriteMemory | prac2/clockmmu.py:62-97 | A write is the abstract `Access` with `write` true, and it keeps `Valid()`. |
| Clock.ClockMmu.GetTotalDiskReads | prac2/clockmmu.py:114-116 | Returns `disk_reads`, which equals `page_faults`. |
| Clock.ClockMmu.GetTotalDiskWrites | prac2/clockmmu.py:118-120 | Returns `disk_writes`, which is at most `page_faults`. |
| Clock.ClockMmu.GetTotalPageFaults | prac2/clockmmu.py:122-124 | Returns `page_faults`, which equals `disk_reads` and is at least `disk_writes`. |
| Lru.LeastRecentExists | prac2/lrummu.py:37 | A non-empty record of last uses has a page whose stamp is no later than any other's, so `min(last_used, key=…)` is defined. |
| Lru.LeastRecent | prac2/lrummu.py:37 | The chosen page is in `last_used`, and its stamp is minimal. |
| Lru.LeastRecentUnique | prac2/lrummu.py:37 | When stamps are distinct, the minimum is unique and strictly older than every other page. `min`'s tie-breaking never matters. |
| Lru.Init | prac2/lrummu.py:4-13 | The initial state has an empty page table, every frame on the free list, and satisfies the invariant. |
| Lru.Pop | prac2/lrummu.py:78 | `free_frames.pop()` drops the last element and keeps the others in order. |
| Lru.MakeRoom | prac2/lrummu.py:74-75 | After the "no free frame" branch, a free frame is available. |
| Lru.Evict | prac2/lrummu.py:36-47 | Defines lru_paging: drop the least recently used page from both maps, count a write when it is dirty, append its frame to the free list. Its properties are stated by Lru.EvictPreservesTables and Lru.AccessMissEvicts. |
| Lru.Load | prac2/lrummu.py:78-81 | Defines loading a page into the frame popped off the free list, stamped with the clock and dirty when written, with one disk read. Its properties are stated by Lru.LoadPreservesTables and Lru.AccessMissFree. |
| Lru.Touch | prac2/lrummu.py:53-57 | Defines a hit: restamp the page and set its dirty flag on a write. Its properties are stated by Lru.TouchPreservesTables and Lru.AccessHit. |
| Lru.Fault | prac2/lrummu.py:65-81 | Defines the miss path: count a fault, make room by evicting when no frame is free, then load. Its properties are stated by Lru.FaultPreservesTables and Lru.FaultCounters. |
| Lru.Access | prac2/lrummu.py:49-83 | Defines access_page: tick the clock, then a hit or a fault. Its properties are stated by Lru.AccessPreservesInv, Lru.AccessStampsPage, Lru.AccessHit, Lru.AccessMissFree and Lru.AccessMissEvicts. |
| Lru.EvictPreservesTables | prac2/lrummu.py:36-47 | Eviction keeps the table invariant and returns one frame to the free list. It adds at most one disk write. |
| Lru.LoadPreservesTables | prac2/lrummu.py:78-80 | Loading a new page into a popped free frame keeps the table invariant. |
| Lru.TouchPreservesTables | prac2/lrummu.py:53-57 | Restamping and possibly dirtying a resident page keeps the table invariant. |
| Lru.TablesCanMakeRoom | prac2/lrummu.py:74-75 | Under the invariant, an empty free list implies that some page is resident and can be evicted. |
| Lru.TickPreservesTables | prac2/lrummu.py:50 | Advancing `access_time` keeps the invariant, and afterwards every stored stamp is older than the clock. |
| Lru.AccessPreservesInv | prac2/lrummu.py:49-83 | Every access keeps these facts true: `page_table` and `last_used` have the same keys; stamps are distinct and lie in `(0, access_time]`; frames are distinct and in range, and are resident or free but not both; `len(page_table) + len(free_frames) == num_frames`; `page_faults == disk_reads` and `disk_writes <= page_faults`. |
| Lru.HitPreservesInv | prac2/lrummu.py:50-63 | A hit keeps the invariant. |
| Lru.MissPreservesInv | prac2/lrummu.py:65-83 | A miss keeps the invariant. |
| Lru.MissPreservesTables | prac2/lrummu.py:65-83 | A miss keeps the table part of the invariant. |
| Lru.MissCounters | prac2/lrummu.py:65-81 | A miss adds exactly one fault and one disk read, and at most one disk write. |
| Lru.MakeRoomPreservesTables | prac2/lrummu.py:74-75 | Making room keeps the table invariant. |
| Lru.MakeRoomEffect | prac2/lrummu.py:74-75 | Making room changes no clock, fault or read count, and at most one write. It only removes pages and keeps the stamps of the remaining ones. |
| Lru.FaultPreservesTables | prac2/lrummu.py:66-81 | The fault path keeps the table invariant. |
| Lru.FaultCounters | prac2/lrummu.py:66-81 | The fault path adds one fault and one read, and at most one write. |
| Lru.AccessStampsPage | prac2/lrummu.py:49-83 | Every access advances `access_time` by one. It records that time as the page's last use, and leaves the page resident. The page is dirty if it was already dirty or this access is a write. |
| Lru.AccessHit | prac2/lrummu.py:53-63 | A hit changes no counter and does not touch the free list. The page keeps its frame and gets the new time as its stamp. A write hit sets the dirty flag, and a read hit keeps it. Every other page keeps its record and stamp. |
| Lru.AccessMissFree | prac2/lrummu.py:65-81 | A miss with a free frame adds one fault and one disk read, evicts nothing and writes nothing back. It loads the page into the last free frame with dirty flag `is_write`, stamps it with the new time, and drops that frame from the list. Every other page keeps its record and stamp. |
| Lru.AccessMissEvicts | prac2/lrummu.py:36-83 | A miss with no free frame adds one fault and one disk read and evicts the unique page with the oldest stamp. That page leaves both `page_table` and `last_used`. There is one disk write exactly when its record was dirty. The new page reuses its frame with dirty flag `is_write` and the new time as its stamp. Every other page keeps its record and stamp, and the free list stays empty. |
| Lru.LruMmu.constructor | prac2/lrummu.py:4-13 | A new simulator is valid and equals `Init(frames)`. |
| Lru.LruMmu.LeastRecentlyUsed | prac2/lrummu.py:37 | The loop returns a page of `last_used` whose stamp is minimal. |
| Lru.LruMmu.LruPaging | prac2/lrummu.py:36-47 | `lru_paging` gives exactly the state `Evict` describes. |
| Lru.LruMmu.AccessPage | prac2/lrummu.py:49-83 | `access_page` gives exactly the state `Access` describes. |
| Lru.LruMmu.ReadMemory | prac2/lrummu.py:21-22 | A read is `Access` with `is_write` false, and it keeps `Valid()`. |
| Lru.LruMmu.WriteMemory | prac2/lrummu.py:24-25 | A write is `Access` with `is_write` true, and it keeps `Valid()`. |
| Lru.LruMmu.GetTotalDiskReads | prac2/lrummu.py:27-28 | Returns `disk_reads`, which equals `page_faults`. |
| Lru.LruMmu.GetTotalDiskWrites | prac2/lrummu.py:30-31 | Returns `disk_writes`, which is at most `page_faults`. |
| Lru.LruMmu.GetTotalPageFaults | prac2/lrummu.py:33-34 | Returns `page_faults`, which equals `disk_reads` and is at least `disk_writes`. |
| Rand.RemoveFirst | prac2/randmmu.py:36 | `list.remove(x)` leaves the list unchanged when `x` is absent. Otherwise it shortens the list by one. |
| Rand.RemoveFirstExact | prac2/randmmu.py:36 | On a list without duplicates, `remove(victim)` drops the victim entirely and keeps every other page. The result has no duplicates. |
| Rand.Init | prac2/randmmu.py:5-13 | The initial state has empty memory, an empty page table and zero counters, and with at least one frame it satisfies the invariant. |
| Rand.Fault | prac2/randmmu.py:22-39 | Defines the miss path (also write_memory's, lines 46-63): count a fault and a read, append while memory has room, otherwise write back a dirty victim and replace it, then record the page's dirty flag. Its properties are stated by Rand.MissCounters, Rand.MissAppends, Rand.MissReplacesVictim and Rand.MissRecordsDirty. |
| Rand.Access | prac2/randmmu.py:18-63 | Defines one request as a hit or a fault on whether the page is in `memory`. Its properties are stated by Rand.AccessPreservesInv, Rand.ReadHit, Rand.WriteHit and Rand.AccessMakesResident. |
| Rand.VictimExists | prac2/randmmu.py:28-31 | Under the invariant, a victim can always be drawn when memory is full, so `random.choice` never sees an empty list. |
| Rand.AccessPreservesInv | prac2/randmmu.py:18-63 | Every request keeps these facts true: `len(memory) <= frames`; `memory` has no duplicates; every resident page has a page-table entry; `page_faults == disk_reads`; `disk_writes <= page_faults`. |
| Rand.ReadHit | prac2/randmmu.py:19-21 | A read hit changes nothing at all. |
| Rand.WriteHit | prac2/randmmu.py:42-45 | A write hit sets the page's entry to dirty and changes nothing else. |
| Rand.MissCounters | prac2/randmmu.py:22-37 | A miss adds exactly one fault and one disk read. It adds one disk write exactly when memory was full and the victim has a page-table entry that is dirty (`page_table.get(victim, (False,))[0]`: a page without an entry counts as clean). |
| Rand.MissRecordsDirty | prac2/randmmu.py:39-63 | A miss records the page as clean on a read and as dirty on a write. It leaves every other entry alone. |
| Rand.MissAppends | prac2/randmmu.py:28-29 | While memory is not full, a miss appends the page and evicts nothing. |
| Rand.MissReplacesVictim | prac2/randmmu.py:30-37 | When memory is full, a miss keeps the length unchanged. It removes the victim, keeps every other resident page, and appends the new page last. |
| Rand.AccessMakesResident | prac2/randmmu.py:18-63 | After any request, the page is in `memory`. |
| Rand.RandMmu.constructor | prac2/randmmu.py:5-13 | A new simulator is valid and equals `Init(frames)`. |
| Rand.RandMmu.ChooseVictim | prac2/randmmu.py:31 | `random.choice(memory)` returns some resident page. |
| Rand.RandMmu.LoadPage | prac2/randmmu.py:22-39 | The miss path gives exactly the state `Fault` describes for the victim it drew. That victim is resident whenever memory was full. |
| Rand.RandMmu.ReadMemory | prac2/randmmu.py:18-39 | A read is `Access` with `write` false for an admissible victim, and it keeps `Valid()`. |
| Rand.RandMmu.WriteMemory | prac2/randmmu.py:41-63 | A write is `Access` with `write` true for an admissible victim, and it keeps `Valid()`. |
| Rand.RandMmu.GetTotalDiskReads | prac2/randmmu.py:65-66 | Returns `disk_reads`, which equals `page_faults`. |
| Rand.RandMmu.GetTotalDiskWrites | prac2/randmmu.py:68-69 | Returns `disk_writes`, which is at most `page_faults`. |
| Rand.RandMmu.GetTotalPageFaults | prac2/randmmu.py:71-72 | Returns `page_faults`, which equals `disk_reads` and is at least `disk_writes`. |

## Left out

- Debug output is not modelled: every `if self.debug: print(...)` branch, `set_debug`/`reset_debug`, and the second `self.debug = True` in `RandMMU.__init__`. They only affect printing.
- The `MMU` base class that all three simulators extend is not part of this model. Each simulator is modelled on its own.
- The scripts that drive the simulators (`run_script.py`, `memsim.py`) and the C programs in the repository are not part of this model.
- `random.choice` is modelled as an arbitrary choice of a resident page (`:|` in `Rand.RandMmu.ChooseVictim`), not as a uniform distribution. Every property is proved for every possible choice.
- A simulator with zero frames is excluded by the constructors' `frames > 0` precondition. With zero frames, the first request fails in the Python code: Clock indexes an empty `reference_bits` list at `find_victim_frame`, LRU calls `min` on an empty dict, and Rand calls `random.choice` on an empty list.
- Representation changes:
  - Clock's reference bits are `bool` rather than the integers 0 and 1.
  - Clock's frame entries `(page, dirty)`/`None` are the datatype `Frame`.
  - LRU's page-table records `{'frame', 'dirty'}` are the datatype `Entry`.
  - Rand's page-table values `(dirty, None)` are just the dirty flag.
  - Python integers are unbounded, and so are Dafny's, so no overflow is modelled.
- The ghost `victim` out-parameters of `Rand.RandMmu.ReadMemory`, `Rand.RandMmu.WriteMemory` and `Rand.RandMmu.LoadPage` only name the random draw for the contract. They are not results of the Python methods.
- Lru.LruMmu.LruPaging: requires a non-empty `last_used` whose keys are resident and whose stamps are distinct. On an empty dict Python's `min` raises, and `access_page` only calls `lru_paging` when no frame is free, which under the invariant means some page is resident.
- Lru.LruMmu.AccessPage and Clock.ClockMmu.HandleFault require only the shape facts their bodies rely on, not the full invariant. The public `ReadMemory`/`WriteMemory` methods establish the invariant and prove it is kept.
- Lru.MissCounters: only bounds the disk-write change by one. The exact rule, one write exactly when the evicted record is dirty, is stated by Lru.AccessMissFree and Lru.AccessMissEvicts.
- Lru.FaultCounters: only bounds the disk-write change by one, for the same reason; the exact rule is stated on whole requests by Lru.AccessMissFree and Lru.AccessMissEvicts.
- Lru.LruMmu.LeastRecentlyUsed scans the dict in an unspecified order, where Python's `min` scans in insertion order. The result is the same because stamps are distinct (Lru.LeastRecentUnique).
